/** Physical memory and its frame allocator.

    Memory is a sequence of 4 KB frames of 1024 words.  Freed frames are linked through their own
    first word; frames that were never issued lie between `avail` and `limit`.
 */
module PhysMem {
  import opened Wrappers

  const WORDS := 1024
  const FRAME_SIZE := 4096
  const MAX_FRAMES := 0x10_0000

  /** The bit `w & 1` of a directory or table entry. */
  predicate Present(w: int) {
    w % 2 == 1
  }

  /** The bits that let a page be written and let user code use it; an entry with both, and present. */
  predicate Writable(w: int) {
    w / 2 % 2 == 1
  }

  predicate UserBit(w: int) {
    w / 4 % 2 == 1
  }

  predicate UserEntry(w: int) {
    w % 8 == 7
  }

  /** The frame number in `w & 0xFFFFF000`. */
  function FrameOf(w: int): int {
    w / FRAME_SIZE
  }

  /** `frame | flags` for a frame-aligned address and flags below the frame size. */
  function Entry(f: int, flags: int): int {
    f * FRAME_SIZE + flags
  }

  /** Frame numbers stand for frame addresses; frame 0 is the null pointer. */
  datatype Phys = Phys(mem: seq<seq<int>>, firstFree: int, avail: int, limit: int)

  function Zeros(): seq<int> {
    seq(WORDS, i => 0)
  }

  /** Reading memory that is not there yields zero; writing it has no effect. */
  function Load(s: Phys, f: int, i: int): int {
    if 0 <= f < |s.mem| && 0 <= i < |s.mem[f]| then s.mem[f][i] else 0
  }

  function Store(s: Phys, f: int, i: int, w: int): Phys {
    if 0 <= f < |s.mem| && 0 <= i < |s.mem[f]| then s.(mem := s.mem[f := s.mem[f][i := w]]) else s
  }

  function Fill(s: Phys, f: int, words: seq<int>): Phys {
    if 0 <= f < |s.mem| then s.(mem := s.mem[f := words]) else s
  }

  function FrameWords(s: Phys, f: int): seq<int> {
    seq(WORDS, k => Load(s, f, k))
  }

  function CopyFrame(s: Phys, src: int, dst: int): Phys {
    Fill(s, dst, FrameWords(s, src))
  }

  function AllocFrame(s: Phys): Option<(Phys, int)> {
    if s.firstFree != 0 then
      var p := s.firstFree;
      Some((Fill(s.(firstFree := FrameOf(Load(s, p, 0))), p, Zeros()), p))
    else if s.avail == s.limit then
      None
    else
      Some((Fill(s.(avail := s.avail + 1), s.avail, Zeros()), s.avail))
  }

  function DeallocFrame(s: Phys, f: int): Phys {
    Store(s, f, 0, Entry(s.firstFree, 0)).(firstFree := f)
  }
}

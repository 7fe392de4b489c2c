/** The read call on an offset that several processes share, one access to the offset at a time.

    A call loads the offset to compare what is left with what was asked for, loads it again when less is
    left, and then adds its count with fetch_add.  Calls of other processes may come in between.
 */
module SharedOffsets {
  import opened Words
  import opened Wrappers
  import B = BlockReads
  import F = FileReads

  /** How far a call has got; `Over` remembers what was left when it was too little. */
  datatype Stage = Asking(count: nat) | Over(left: nat) | Counted(count: nat) | Reading(at: nat, count: nat)

  datatype Readers = Readers(size: nat, offset: nat, stages: seq<Stage>)

  /** What is left of the file, as a 32-bit difference. */
  function Left(f: Readers): nat {
    (f.size - f.offset) % WORD_LIMIT
  }

  /** The next access of call i. */
  function Step(f: Readers, i: nat): Option<Readers> {
    if i >= |f.stages| then None
    else
      match f.stages[i]
      case Asking(count) => Some(f.(stages := f.stages[i := if count > Left(f) then Over(Left(f)) else Counted(count)]))
      case Over(_) => Some(f.(stages := f.stages[i := Counted(Left(f))]))
      case Counted(count) =>
        Some(f.(offset := (f.offset + count) % WORD_LIMIT, stages := f.stages[i := Reading(f.offset, count)]))
      case Reading(_, _) => None
  }

  function Run(f: Readers, steps: seq<nat>): Option<Readers>
    decreases |steps|
  {
    if steps == [] then Some(f)
    else
      var f' :- Step(f, steps[0]);
      Run(f', steps[1..])
  }

  /** Calls for these counts, none of which has begun. */
  function Start(size: nat, offset: nat, counts: seq<nat>): Readers {
    Readers(size, offset, seq(|counts|, i requires 0 <= i < |counts| => Asking(counts[i])))
  }

  // ---- Staying within the file ----

  /** The offset and all the bytes that calls have taken are inside the file. */
  ghost predicate Within(f: Readers) {
    f.offset <= f.size && forall i :: 0 <= i < |f.stages| && f.stages[i].Reading? ==>
        f.stages[i].at + f.stages[i].count <= f.size
  }

  /** Whatever the order, the file is long enough for the calls: each asks for what it would get if it came
      first. */
  predicate Suffices(size: nat, offset: nat, counts: seq<nat>)
    requires offset <= size
  {
    offset + Sum(counts, Share(size - offset)) <= size
  }

  function Share(room: nat): nat -> nat {
    count => Min(count, room)
  }

  /** What a call may still add, when `room` bytes were left at the start. */
  function Pending(t: Stage, room: nat): nat {
    match t
    case Asking(count) => Min(count, room)
    case Over(left) => left
    case Counted(count) => count
    case Reading(_, _) => 0
  }

  function Pendings(room: nat): Stage -> nat {
    t => Pending(t, room)
  }

  /** The bytes from `start` up to the offset have each been taken by one call. */
  ghost predicate Tiled(f: Readers, start: nat) {
    && (forall i :: 0 <= i < |f.stages| && f.stages[i].Reading? ==>
          start <= f.stages[i].at && f.stages[i].at + f.stages[i].count <= f.offset)
    && (forall x: nat :: start <= x < f.offset ==> Taken(f, x))
    && (forall i: nat, j: nat, x: nat :: Takes(f, i, x) && Takes(f, j, x) ==> i == j)
  }

  ghost predicate Takes(f: Readers, i: nat, x: nat) {
    i < |f.stages| && f.stages[i].Reading? && f.stages[i].at <= x < f.stages[i].at + f.stages[i].count
  }

  ghost predicate Taken(f: Readers, x: nat) {
    exists i: nat :: Takes(f, i, x)
  }

  ghost predicate Inv(f: Readers, start: nat) {
    && start <= f.offset <= f.size < WORD_LIMIT
    && f.offset + Sum(f.stages, Pendings(f.size - start)) <= f.size
    && (forall i :: 0 <= i < |f.stages| && f.stages[i].Over? ==> f.size - f.offset <= f.stages[i].left)
    && Tiled(f, start)
  }

  lemma {:induction false} PendingIn(stages: seq<Stage>, room: nat, i: nat)
    requires i < |stages|
    ensures Pending(stages[i], room) <= Sum(stages, Pendings(room))
  {
    if i > 0 {
      PendingIn(stages[1..], room, i - 1);
    }
  }

  /** Taking the next bytes of the file keeps what is taken tiled. */
  lemma AddTiles(f: Readers, i: nat, start: nat)
    requires Tiled(f, start) && start <= f.offset && i < |f.stages| && f.stages[i].Counted?
    requires f.offset + f.stages[i].count < WORD_LIMIT
    ensures Tiled(Step(f, i).value, start)
  {
    var f' := Step(f, i).value;
    forall j: nat, x: nat ensures Takes(f', j, x) <==> if j == i then f.offset <= x < f'.offset else Takes(f, j, x) {
    }
    forall x: nat | start <= x < f'.offset ensures Taken(f', x) {
      if x < f.offset {
        assert Taken(f, x);
        var j: nat :| Takes(f, j, x);
        assert Takes(f', j, x);
      } else {
        assert Takes(f', i, x);
      }
    }
  }

  lemma SetTiles(f: Readers, i: nat, t: Stage, start: nat)
    requires Tiled(f, start) && i < |f.stages| && !f.stages[i].Reading? && !t.Reading?
    ensures Tiled(f.(stages := f.stages[i := t]), start)
  {
    var f' := f.(stages := f.stages[i := t]);
    forall j: nat, x: nat ensures Takes(f', j, x) == Takes(f, j, x) {
    }
    forall x: nat | start <= x < f'.offset ensures Taken(f', x) {
      assert Taken(f, x);
      var j: nat :| Takes(f, j, x);
      assert Takes(f', j, x);
    }
  }

  /** A decision promises no more than was promised before. */
  lemma StepFits(f: Readers, i: nat, start: nat)
    requires Inv(f, start) && Step(f, i).Some?
    ensures var f' := Step(f, i).value;
            f'.offset + Pending(f'.stages[i], f.size - start) <= f.offset + Pending(f.stages[i], f.size - start)
            && f.offset <= f'.offset <= f.size
  {
    PendingIn(f.stages, f.size - start, i);
  }

  lemma StepTiles(f: Readers, i: nat, start: nat)
    requires Inv(f, start) && Step(f, i).Some?
    ensures Tiled(Step(f, i).value, start)
  {
    if f.stages[i].Counted? {
      PendingIn(f.stages, f.size - start, i);
      AddTiles(f, i, start);
    } else {
      SetTiles(f, i, Step(f, i).value.stages[i], start);
    }
  }

  lemma StepKeeps(f: Readers, i: nat, start: nat)
    requires Inv(f, start) && Step(f, i).Some?
    ensures Inv(Step(f, i).value, start) && Step(f, i).value.size == f.size
  {
    var f' := Step(f, i).value;
    StepFits(f, i, start);
    SumSet(f.stages, Pendings(f.size - start), i, f'.stages[i]);
    assert f'.stages == f.stages[i := f'.stages[i]];
    StepTiles(f, i, start);
  }

  lemma {:induction false} RunKeeps(f: Readers, steps: seq<nat>, start: nat)
    requires Inv(f, start) && Run(f, steps).Some?
    ensures Inv(Run(f, steps).value, start) && Run(f, steps).value.size == f.size
    decreases |steps|
  {
    if steps != [] {
      StepKeeps(f, steps[0], start);
      RunKeeps(Step(f, steps[0]).value, steps[1..], start);
    }
  }

  lemma {:induction false} StartPending(counts: seq<nat>, stages: seq<Stage>, room: nat)
    requires |stages| == |counts| && forall i :: 0 <= i < |counts| ==> Pending(stages[i], room) == Min(counts[i], room)
    ensures Sum(stages, Pendings(room)) == Sum(counts, Share(room))
  {
    if counts != [] {
      StartPending(counts[1..], stages[1..], room);
    }
  }

  /** When the file suffices, every interleaving keeps the offset and the bytes taken inside the file, no byte
      is taken twice and none is skipped. */
  lemma EveryInterleaving(size: nat, offset: nat, counts: seq<nat>, steps: seq<nat>)
    requires offset <= size < WORD_LIMIT && Suffices(size, offset, counts)
    requires Run(Start(size, offset, counts), steps).Some?
    ensures var f := Run(Start(size, offset, counts), steps).value;
            Within(f) && Tiled(f, offset)
  {
    var f := Start(size, offset, counts);
    StartPending(counts, f.stages, size - offset);
    assert forall i: nat, x: nat :: !Takes(f, i, x);
    RunKeeps(f, steps, offset);
  }

  // ---- The interleaving that leaves the file ----

  lemma {:induction false} RunOn(f: Readers, steps: seq<nat>, more: seq<nat>)
    requires Run(f, steps).Some?
    ensures Run(f, steps + more) == Run(Run(f, steps).value, more)
    decreases |steps|
  {
    if steps == [] {
      assert steps + more == more;
    } else {
      assert (steps + more)[1..] == steps[1..] + more;
      RunOn(Step(f, steps[0]).value, steps[1..], more);
    }
  }

  /** Call i decides on its count while nobody moves the offset. */
  lemma Decides(f: Readers, i: nat) returns (steps: seq<nat>)
    requires f.offset <= f.size < WORD_LIMIT && i < |f.stages| && f.stages[i].Asking?
    ensures Run(f, steps) == Some(f.(stages := f.stages[i := Counted(Min(f.stages[i].count, f.size - f.offset))]))
  {
    var f1 := Step(f, i).value;
    if f1.stages[i].Over? {
      assert f1.stages[i := Counted(Left(f))] == f.stages[i := Counted(Left(f))];
      assert Run(f1, [i]) == Run(Step(f1, i).value, [i][1..]);
      steps := [i, i];
      assert steps[1..] == [i];
    } else {
      steps := [i];
    }
  }

  /** The calls from k on decide, one by one. */
  lemma {:induction false} AllDecide(f: Readers, k: nat, counts: seq<nat>) returns (steps: seq<nat>, stages: seq<Stage>)
    requires f.offset <= f.size < WORD_LIMIT && k <= |f.stages| == |counts|
    requires forall i :: k <= i < |counts| ==> f.stages[i] == Asking(counts[i])
    ensures Run(f, steps) == Some(f.(stages := stages)) && |stages| == |counts| && stages[..k] == f.stages[..k]
    ensures forall i :: k <= i < |counts| ==> stages[i] == Counted(Min(counts[i], f.size - f.offset))
    decreases |counts| - k
  {
    if k == |counts| {
      steps, stages := [], f.stages;
    } else {
      var first := Decides(f, k);
      var f1 := Run(f, first).value;
      var rest;
      rest, stages := AllDecide(f1, k + 1, counts);
      RunOn(f, first, rest);
      steps := first + rest;
      assert stages[k] == stages[..k + 1][k];
      assert stages[..k] == stages[..k + 1][..k];
    }
  }

  /** The calls from k on add their counts in turn, until one takes more than there is. */
  lemma {:induction false} AddPast(f: Readers, k: nat, room: nat) returns (steps: seq<nat>)
    requires f.offset <= f.size < WORD_LIMIT && k <= |f.stages|
    requires forall i :: k <= i < |f.stages| ==> f.stages[i].Counted?
    requires f.offset + Sum(f.stages[k..], Pendings(room)) > f.size
    ensures Run(f, steps).Some? && !Within(Run(f, steps).value)
    decreases |f.stages| - k
  {
    var f1 := Step(f, k).value;
    assert Run(f1, []) == Some(f1);
    if f.offset + f.stages[k].count > f.size {
      steps := [k];
      assert f1.stages[k].at + f1.stages[k].count > f1.size;
    } else {
      assert f1.stages[k + 1..] == f.stages[k..][1..];
      var rest := AddPast(f1, k + 1, room);
      steps := [k] + rest;
      assert steps[1..] == rest;
    }
  }

  /** Otherwise all calls may decide before the first one adds, and one of them takes bytes past the end. */
  lemma SomeInterleaving(size: nat, offset: nat, counts: seq<nat>) returns (steps: seq<nat>)
    requires offset <= size < WORD_LIMIT && !Suffices(size, offset, counts)
    ensures Run(Start(size, offset, counts), steps).Some? && !Within(Run(Start(size, offset, counts), steps).value)
  {
    var f := Start(size, offset, counts);
    var first, stages := AllDecide(f, 0, counts);
    var f1 := f.(stages := stages);
    StartPending(counts, stages, size - offset);
    assert stages[0..] == stages;
    var rest := AddPast(f1, 0, size - offset);
    RunOn(f, first, rest);
    steps := first + rest;
  }

  ghost predicate AlwaysWithin(size: nat, offset: nat, counts: seq<nat>) {
    forall steps :: Run(Start(size, offset, counts), steps).Some? ==>
        Within(Run(Start(size, offset, counts), steps).value)
  }

  /** The calls stay within the file in every order of their accesses exactly when the file suffices. */
  lemma WithinWhen(size: nat, offset: nat, counts: seq<nat>)
    requires offset <= size < WORD_LIMIT
    ensures AlwaysWithin(size, offset, counts) <==> Suffices(size, offset, counts)
  {
    if Suffices(size, offset, counts) {
      forall steps | Run(Start(size, offset, counts), steps).Some?
        ensures Within(Run(Start(size, offset, counts), steps).value)
      {
        EveryInterleaving(size, offset, counts, steps);
      }
    } else {
      var steps := SomeInterleaving(size, offset, counts);
    }
  }

  // ---- Calls one after another ----

  /** Call i runs from beginning to end. */
  lemma Finishes(d: B.Device, f: Readers, i: nat) returns (steps: seq<nat>)
    requires f.offset <= f.size == d.size < WORD_LIMIT && i < |f.stages| && f.stages[i].Asking?
    ensures var n := F.Count(d, f.offset, f.stages[i].count);
            Run(f, steps) == Some(Readers(f.size, f.offset + n, f.stages[i := Reading(f.offset, n)]))
  {
    var n := F.Count(d, f.offset, f.stages[i].count);
    var first := Decides(f, i);
    var f1 := Run(f, first).value;
    assert f1.stages[i := Reading(f.offset, n)] == f.stages[i := Reading(f.offset, n)];
    assert Run(f1, [i]) == Run(Step(f1, i).value, [i][1..]);
    RunOn(f, first, [i]);
    steps := first + [i];
  }

  /** The calls from k on have been answered as `pieces`. */
  ghost predicate Answered(d: B.Device, f: Readers, k: nat, pieces: seq<seq<B.Byte>>) {
    |f.stages| == k + |pieces| && forall i :: k <= i < |f.stages| ==> Gets(d, f.stages[i], pieces[i - k])
  }

  ghost predicate Gets(d: B.Device, t: Stage, piece: seq<B.Byte>) {
    t.Reading? && piece == B.Slice(d, t.at, t.count)
  }

  lemma OneMore(d: B.Device, f: Readers, k: nat, piece: seq<B.Byte>, pieces: seq<seq<B.Byte>>)
    requires Answered(d, f, k + 1, pieces) && Gets(d, f.stages[k], piece)
    ensures Answered(d, f, k, [piece] + pieces)
  {
  }

  /** The calls from k on have not begun. */
  ghost predicate Asks(f: Readers, k: nat, counts: seq<nat>) {
    |f.stages| == k + |counts| && forall i :: k <= i < |f.stages| ==> f.stages[i] == Asking(counts[i - k])
  }

  lemma AsksNext(f: Readers, f': Readers, k: nat, counts: seq<nat>, t: Stage)
    requires counts != [] && Asks(f, k, counts) && f'.stages == f.stages[k := t]
    ensures Asks(f', k + 1, counts[1..])
  {
  }

  lemma {:induction false} FinishFrom(d: B.Device, f: Readers, k: nat, counts: seq<nat>)
    returns (steps: seq<nat>, f': Readers)
    requires f.offset <= f.size == d.size < WORD_LIMIT && Asks(f, k, counts)
    ensures Run(f, steps) == Some(f') && |f'.stages| == |f.stages| && f'.stages[..k] == f.stages[..k]
    ensures f'.offset == F.OffsetAfter(d, f.offset, counts) && Answered(d, f', k, F.Calls(d, f.offset, counts))
    decreases |f.stages| - k
  {
    if k == |f.stages| {
      steps, f' := [], f;
    } else {
      var n := F.Count(d, f.offset, counts[0]);
      var first := Finishes(d, f, k);
      var f1 := Run(f, first).value;
      F.CountIs(d, f.offset, counts[0]);
      var rest;
      AsksNext(f, f1, k, counts, Reading(f.offset, n));
      rest, f' := FinishFrom(d, f1, k + 1, counts[1..]);
      RunOn(f, first, rest);
      steps := first + rest;
      Kept(f, f1, f', k, Reading(f.offset, n));
      F.CallsFirst(d, f.offset, counts);
      OneMore(d, f', k, B.Slice(d, f.offset, n), F.Calls(d, f1.offset, counts[1..]));
    }
  }

  lemma Kept(f: Readers, f1: Readers, f': Readers, k: nat, t: Stage)
    requires k < |f.stages| == |f'.stages| && f1.stages == f.stages[k := t] && f'.stages[..k + 1] == f1.stages[..k + 1]
    ensures f'.stages[k] == t && f'.stages[..k] == f.stages[..k]
  {
    assert f'.stages[k] == f'.stages[..k + 1][k];
    assert f'.stages[..k] == f'.stages[..k + 1][..k];
  }

  /** One call after another, the steps come to what is said of whole calls: each call takes its bytes and the
      offset ends where it should. */
  lemma InTurn(d: B.Device, offset: nat, counts: seq<nat>) returns (steps: seq<nat>, f: Readers)
    requires offset <= d.size < WORD_LIMIT
    ensures Run(Start(d.size, offset, counts), steps) == Some(f)
    ensures f.offset == F.OffsetAfter(d, offset, counts) && Answered(d, f, 0, F.Calls(d, offset, counts))
  {
    var start := Start(d.size, offset, counts);
    steps, f := FinishFrom(d, start, 0, counts);
  }

  // ---- A file that is too short ----

  /** One more step of a run, to the offset and the stages given. */
  lemma Goes(start: Readers, steps: seq<nat>, f: Readers, i: nat, offset: nat, stages: seq<Stage>)
    returns (steps': seq<nat>, f': Readers)
    requires Run(start, steps) == Some(f) && Step(f, i).Some? && Step(f, i).value.offset == offset
    requires |stages| == |f.stages| && forall k :: 0 <= k < |stages| ==> Step(f, i).value.stages[k] == stages[k]
    ensures f' == Readers(f.size, offset, stages) && steps' == steps + [i] && Run(start, steps') == Some(f')
  {
    f' := Readers(f.size, offset, stages);
    assert Step(f, i).value.stages == stages;
    steps' := steps + [i];
    assert Run(f, [i]) == Run(f', [i][1..]);
    RunOn(start, steps, [i]);
  }

  /** Two calls for 6 of 10 bytes that decide before either adds: the second takes two bytes past the end and
      leaves the offset there. */
  lemma PassesTheEnd() returns (steps: seq<nat>, f: Readers)
    ensures Run(Start(10, 0, [6, 6]), steps) == Some(f) && f == Readers(10, 12, [Reading(0, 6), Reading(6, 6)])
  {
    var start := Start(10, 0, [6, 6]);
    steps, f := [], start;
    steps, f := Goes(start, steps, f, 0, 0, [Counted(6), Asking(6)]);
    steps, f := Goes(start, steps, f, 1, 0, [Counted(6), Counted(6)]);
    steps, f := Goes(start, steps, f, 0, 6, [Reading(0, 6), Counted(6)]);
    steps, f := Goes(start, steps, f, 1, 12, [Reading(0, 6), Reading(6, 6)]);
  }

  /** Two calls pass the end while two more have found too little left. */
  lemma TwoPass(start: Readers) returns (steps: seq<nat>, f: Readers)
    requires start == Start(10, 0, [6, 6, 20, 20, 2])
    ensures Run(start, steps) == Some(f)
    ensures f == Readers(10, 12, [Reading(0, 6), Reading(6, 6), Over(10), Over(10), Asking(2)])
  {
    steps, f := [], start;
    steps, f := Goes(start, steps, f, 0, 0, [Counted(6), Asking(6), Asking(20), Asking(20), Asking(2)]);
    steps, f := Goes(start, steps, f, 1, 0, [Counted(6), Counted(6), Asking(20), Asking(20), Asking(2)]);
    steps, f := Goes(start, steps, f, 2, 0, [Counted(6), Counted(6), Over(10), Asking(20), Asking(2)]);
    steps, f := Goes(start, steps, f, 3, 0, [Counted(6), Counted(6), Over(10), Over(10), Asking(2)]);
    steps, f := Goes(start, steps, f, 0, 6, [Reading(0, 6), Counted(6), Over(10), Over(10), Asking(2)]);
    steps, f := Goes(start, steps, f, 1, 12, [Reading(0, 6), Reading(6, 6), Over(10), Over(10), Asking(2)]);
  }

  /** Past the end what is left wraps around, so the two move the offset back by two each. */
  lemma TwoGoBack(start: Readers, steps0: seq<nat>, f0: Readers, b: nat) returns (steps: seq<nat>, f: Readers)
    requires Run(start, steps0) == Some(f0) && b == WORD_LIMIT - 2
    requires f0 == Readers(10, 12, [Reading(0, 6), Reading(6, 6), Over(10), Over(10), Asking(2)])
    ensures Run(start, steps) == Some(f)
    ensures f == Readers(10, 8, [Reading(0, 6), Reading(6, 6), Reading(12, b), Reading(10, b), Asking(2)])
  {
    steps, f := steps0, f0;
    steps, f := Goes(start, steps, f, 2, 12, [Reading(0, 6), Reading(6, 6), Counted(b), Over(10), Asking(2)]);
    steps, f := Goes(start, steps, f, 3, 12, [Reading(0, 6), Reading(6, 6), Counted(b), Counted(b), Asking(2)]);
    steps, f := Goes(start, steps, f, 2, 10, [Reading(0, 6), Reading(6, 6), Reading(12, b), Counted(b), Asking(2)]);
    steps, f := Goes(start, steps, f, 3, 8, [Reading(0, 6), Reading(6, 6), Reading(12, b), Reading(10, b), Asking(2)]);
  }

  /** Then the last call is given bytes 8 and 9, which the second one has. */
  lemma ReadsTwice() returns (steps: seq<nat>, f: Readers)
    ensures Run(Start(10, 0, [6, 6, 20, 20, 2]), steps) == Some(f) && Takes(f, 1, 8) && Takes(f, 4, 8)
  {
    var b := WORD_LIMIT - 2;
    var start := Start(10, 0, [6, 6, 20, 20, 2]);
    steps, f := TwoPass(start);
    steps, f := TwoGoBack(start, steps, f, b);
    steps, f := Goes(start, steps, f, 4, 8, [Reading(0, 6), Reading(6, 6), Reading(12, b), Reading(10, b), Counted(2)]);
    steps, f := Goes(start, steps, f, 4, 10,
                     [Reading(0, 6), Reading(6, 6), Reading(12, b), Reading(10, b), Reading(8, 2)]);
  }
}

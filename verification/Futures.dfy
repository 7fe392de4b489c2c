/** The future: one value, set once, handed to every callback by passing a single unit of a semaphore
    from one to the next.  The steps of any number of callers are interleaved in any order. */
module Futures {
  import opened Words
  import opened Wrappers
  import opened Semaphores

  /** A callback waits for the unit, is granted it, ups it on to the next, and then runs.  A coroutine
      that did not find the unit at once is about to ask again. */
  datatype Stage = Retry | Waiting | Granted | Upped | Ran

  /** set writes the value and then ups the semaphore. */
  datatype Phase = Unset | Written | Complete

  /** seen[i] is the value callback i ran with. */
  datatype Future = Future(sem: Sem<nat>, value: int, phase: Phase, stages: seq<Stage>, seen: seq<int>)

  datatype Action = Write(v: int) | Publish | Get | Await | Run(i: nat)

  function Start(): Future {
    Future(Sem(0, []), 0, Unset, [], [])
  }

  /** One step; None when it is not possible.  set is called at most once, as its contract asks. */
  function Step(f: Future, a: Action): Option<Future> {
    match a
    case Write(v) => if f.phase == Unset then Some(f.(value := v, phase := Written)) else None
    case Publish =>
      if f.phase == Written then
        Some(f.(sem := Up(f.sem), stages := Wake(f.sem, f.stages, Granted), phase := Complete))
      else None
    case Get =>
      var (sem, now) := Down(f.sem, |f.stages|);
      Some(f.(sem := sem, stages := f.stages + [if now then Granted else Waiting], seen := f.seen + [0]))
    case Await =>
      if f.sem.count > 0 then
        Some(f.(sem := f.sem.(count := f.sem.count - 1), stages := f.stages + [Granted], seen := f.seen + [0]))
      else Some(f.(stages := f.stages + [Retry], seen := f.seen + [0]))
    case Run(i) =>
      if i >= |f.stages| || i >= |f.seen| then None
      else match f.stages[i]
      case Retry =>
        var (sem, now) := Down(f.sem, i);
        Some(f.(sem := sem, stages := f.stages[i := if now then Granted else Waiting]))
      case Granted => Some(f.(sem := Up(f.sem), stages := Wake(f.sem, f.stages[i := Upped], Granted)))
      case Upped => Some(f.(stages := f.stages[i := Ran], seen := f.seen[i := f.value]))
      case _ => None
  }

  predicate Runnable(f: Future, i: nat) {
    i < |f.stages| && f.stages[i] in {Retry, Granted, Upped}
  }

  // ---- The invariant ----

  /** Where the unit is: nowhere before set, and from then on in the semaphore or with one callback. */
  ghost predicate Baton(f: Future) {
    f.sem.count + Tally(f.stages, Granted) == if f.phase == Complete then 1 else 0
  }

  /** Callbacks run only after set, with the value that was set. */
  ghost predicate Honest(f: Future) {
    && |f.seen| == |f.stages|
    && (forall i :: 0 <= i < |f.stages| && f.stages[i] in {Upped, Ran} ==> f.phase == Complete)
    && (forall i :: 0 <= i < |f.stages| && f.stages[i] == Ran ==> f.seen[i] == f.value)
  }

  ghost predicate Inv(f: Future) {
    Queued(f.sem, f.stages, Waiting) && Baton(f) && Honest(f)
  }

  lemma WriteKeeps(f: Future, v: int) returns (f': Future)
    requires Inv(f) && f.phase == Unset
    ensures Step(f, Write(v)) == Some(f') && Inv(f') && f'.value == v
  {
    f' := Step(f, Write(v)).value;
  }

  lemma PublishKeeps(f: Future) returns (f': Future)
    requires Inv(f) && f.phase == Written
    ensures Step(f, Publish) == Some(f') && Inv(f')
  {
    UpQueued(f.sem, f.stages, Waiting, Granted);
    f' := Step(f, Publish).value;
  }

  lemma GetKeeps(f: Future) returns (f': Future)
    requires Inv(f)
    ensures Step(f, Get) == Some(f') && Inv(f')
  {
    f' := Step(f, Get).value;
    DownQueued(f.sem, f.stages, Waiting, Granted);
    assert Baton(f') by { TallyAdd(f.stages, if f.sem.count > 0 then Granted else Waiting); }
    HonestAdd(f, f', if f.sem.count > 0 then Granted else Waiting);
  }

  /** A callback that has not run yet. */
  lemma HonestAdd(f: Future, f': Future, t: Stage)
    requires Honest(f) && t !in {Upped, Ran} && f'.stages == f.stages + [t] && f'.seen == f.seen + [0]
    requires f'.phase == f.phase && f'.value == f.value
    ensures Honest(f')
  {
  }

  lemma AwaitKeeps(f: Future) returns (f': Future)
    requires Inv(f)
    ensures Step(f, Await) == Some(f') && Inv(f')
  {
    f' := Step(f, Await).value;
    var t := if f.sem.count > 0 then Granted else Retry;
    AddQueued(f.sem, f.stages, Waiting, t);
    TallyAdd(f.stages, t);
    HonestAdd(f, f', t);
  }

  lemma RetryKeeps(f: Future, i: nat) returns (f': Future)
    requires Inv(f) && i < |f.stages| && f.stages[i] == Retry
    ensures Step(f, Run(i)) == Some(f') && Inv(f')
  {
    f' := Step(f, Run(i)).value;
    RetryQueued(f.sem, f.stages, i);
    RetryBaton(f.sem, f.stages, i);
  }

  lemma RetryBaton(s: Sem<nat>, stages: seq<Stage>, i: nat)
    requires i < |stages| && stages[i] == Retry
    ensures Down(s, i).0.count + Tally(stages[i := if s.count > 0 then Granted else Waiting], Granted)
              == s.count + Tally(stages, Granted)
  {
    TallyMove(stages, i, if s.count > 0 then Granted else Waiting);
  }

  lemma RetryQueued(s: Sem<nat>, stages: seq<Stage>, i: nat)
    requires Queued(s, stages, Waiting) && i < |stages| && stages[i] == Retry
    ensures Queued(Down(s, i).0, stages[i := if s.count > 0 then Granted else Waiting], Waiting)
  {
  }

  lemma PassKeeps(f: Future, i: nat) returns (f': Future)
    requires Inv(f) && i < |f.stages| && f.stages[i] == Granted
    ensures Step(f, Run(i)) == Some(f') && Inv(f')
  {
    f' := Step(f, Run(i)).value;
    assert f.phase == Complete by { TallyZero(f.stages, Granted); }
    MoveQueued(f.sem, f.stages, Waiting, i, Upped);
    PassBaton(f, i);
    PassStages(f.sem, f.stages[i := Upped]);
  }

  /** Waking changes nothing of the events that have been woken before. */
  lemma PassStages(s: Sem<nat>, stages: seq<Stage>)
    requires Queued(s, stages, Waiting)
    ensures Queued(Up(s), Wake(s, stages, Granted), Waiting) && |Wake(s, stages, Granted)| == |stages|
    ensures forall i :: 0 <= i < |stages| && Wake(s, stages, Granted)[i] in {Upped, Ran} ==>
              Wake(s, stages, Granted)[i] == stages[i]
  {
    UpQueued(s, stages, Waiting, Granted);
  }

  lemma PassBaton(f: Future, i: nat)
    requires i < |f.stages| && f.stages[i] == Granted && Queued(f.sem, f.stages[i := Upped], Waiting)
    ensures Up(f.sem).count + Tally(Wake(f.sem, f.stages[i := Upped], Granted), Granted)
              == f.sem.count + Tally(f.stages, Granted)
  {
    TallyMove(f.stages, i, Upped);
    UpQueued(f.sem, f.stages[i := Upped], Waiting, Granted);
  }

  lemma RanKeeps(f: Future, i: nat) returns (f': Future)
    requires Inv(f) && i < |f.stages| && f.stages[i] == Upped
    ensures Step(f, Run(i)) == Some(f') && Inv(f')
  {
    f' := Step(f, Run(i)).value;
    TallyMove(f.stages, i, Ran);
    MoveQueued(f.sem, f.stages, Waiting, i, Ran);
  }

  lemma StepKeeps(f: Future, a: Action)
    requires Inv(f)
    ensures a.Run? ==> (Step(f, a).Some? <==> Runnable(f, a.i))
    ensures Step(f, a).Some? ==> Inv(Step(f, a).value)
  {
    match a
    case Write(v) => if f.phase == Unset { var f' := WriteKeeps(f, v); }
    case Publish => if f.phase == Written { var f' := PublishKeeps(f); }
    case Get => var f' := GetKeeps(f);
    case Await => var f' := AwaitKeeps(f);
    case Run(i) =>
      if i < |f.stages| {
        match f.stages[i]
        case Retry => var f' := RetryKeeps(f, i);
        case Granted => var f' := PassKeeps(f, i);
        case Upped => var f' := RanKeeps(f, i);
        case _ =>
      }
  }

  // ---- Runs ----

  function Steps(f: Future, acts: seq<Action>): Option<Future>
    decreases |acts|
  {
    if acts == [] then Some(f)
    else
      var f' :- Step(f, acts[0]);
      Steps(f', acts[1..])
  }

  lemma {:induction false} RunKeeps(f: Future, acts: seq<Action>)
    requires Inv(f) && Steps(f, acts).Some?
    ensures Inv(Steps(f, acts).value)
    decreases |acts|
  {
    if acts != [] {
      StepKeeps(f, acts[0]);
      RunKeeps(Step(f, acts[0]).value, acts[1..]);
    }
  }

  /** In every state of every run: before set nobody has run, and after it there is exactly one unit and
      every callback that has run saw the value that was set. */
  lemma EveryRun(acts: seq<Action>)
    requires Steps(Start(), acts).Some?
    ensures Inv(Steps(Start(), acts).value)
  {
    assert Inv(Start());
    RunKeeps(Start(), acts);
  }

  /** A callback that has run never runs again, and what it saw stands. */
  lemma {:induction false} RunsOnce(f: Future, acts: seq<Action>, i: nat)
    requires Inv(f) && i < |f.stages| && f.stages[i] == Ran && Steps(f, acts).Some?
    ensures var f' := Steps(f, acts).value;
            i < |f'.stages| && f'.stages[i] == Ran && i < |f'.seen| && f'.seen[i] == f.seen[i]
    ensures forall k :: 0 <= k < |acts| ==> acts[k] != Run(i)
    decreases |acts|
  {
    if acts != [] {
      StepKeeps(f, acts[0]);
      RanStays(f, acts[0], i);
      var f1 := Step(f, acts[0]).value;
      RunsOnce(f1, acts[1..], i);
      forall k | 0 <= k < |acts| ensures acts[k] != Run(i) {
        if k > 0 { assert acts[k] == acts[1..][k - 1]; }
      }
    }
  }

  lemma RanStays(f: Future, a: Action, i: nat)
    requires Inv(f) && i < |f.stages| && f.stages[i] == Ran && Step(f, a).Some?
    ensures a != Run(i)
    ensures var f' := Step(f, a).value;
            i < |f'.stages| && f'.stages[i] == Ran && i < |f'.seen| && f'.seen[i] == f.seen[i]
  {
    if f.sem.waiting != [] {
      OldestWaits(f.sem, f.stages, Waiting);
    }
  }

  // ---- The calls of a run ----

  /** The values that the run sets. */
  function Writes(acts: seq<Action>): seq<int> {
    if acts == [] then [] else (if acts[0].Write? then [acts[0].v] else []) + Writes(acts[1..])
  }

  /** How often it asks for the value. */
  function Asks(acts: seq<Action>): nat {
    if acts == [] then 0 else (if acts[0].Get? || acts[0].Await? then 1 else 0) + Asks(acts[1..])
  }

  /** What has been set so far. */
  function SetTo(f: Future): seq<int> {
    if f.phase == Unset then [] else [f.value]
  }

  lemma StepSets(f: Future, a: Action)
    requires Inv(f) && Step(f, a).Some?
    ensures SetTo(Step(f, a).value) == SetTo(f) + Writes([a])
    ensures |Step(f, a).value.stages| == |f.stages| + if a.Get? || a.Await? then 1 else 0
  {
    assert Writes([a][1..]) == [];
    if f.sem.waiting != [] { OldestWaits(f.sem, f.stages, Waiting); }
  }

  lemma WritesNext(before: seq<int>, acts: seq<Action>)
    requires acts != []
    ensures before + Writes(acts) == before + Writes([acts[0]]) + Writes(acts[1..])
  {
    assert Writes([acts[0]][1..]) == [];
  }

  lemma {:induction false} RunSets(f: Future, acts: seq<Action>)
    requires Inv(f) && Steps(f, acts).Some?
    ensures SetTo(Steps(f, acts).value) == SetTo(f) + Writes(acts)
    ensures |Steps(f, acts).value.stages| == |f.stages| + Asks(acts)
    decreases |acts|
  {
    if acts == [] {
      assert SetTo(f) + Writes(acts) == SetTo(f);
    } else {
      StepKeeps(f, acts[0]);
      StepSets(f, acts[0]);
      RunSets(Step(f, acts[0]).value, acts[1..]);
      WritesNext(SetTo(f), acts);
    }
  }

  /** In every run there is a callback for each time the value was asked for, and every callback that has run
      saw the one value that was set. */
  lemma EveryCallback(acts: seq<Action>, i: nat)
    requires Steps(Start(), acts).Some? && i < Asks(acts)
    ensures var f := Steps(Start(), acts).value;
            && |f.stages| == Asks(acts) && |f.seen| == Asks(acts)
            && (f.stages[i] == Ran ==> Writes(acts) == [f.seen[i]])
  {
    EveryRun(acts);
    RunSets(Start(), acts);
  }

  // ---- When nothing is left to run ----

  ghost predicate Quiet(f: Future) {
    forall i: nat :: !Runnable(f, i)
  }

  /** After set, nobody is left waiting: every callback has run with the value. */
  lemma Settled(f: Future)
    requires Inv(f) && Quiet(f) && f.phase == Complete
    ensures forall i :: 0 <= i < |f.stages| ==> f.stages[i] == Ran && f.seen[i] == f.value
  {
    forall i | 0 <= i < |f.stages| ensures f.stages[i] != Granted {
      assert !Runnable(f, i);
    }
    TallyZero(f.stages, Granted);
    NobodyWaits(f.sem, f.stages, Waiting);
    forall i | 0 <= i < |f.stages| ensures f.stages[i] == Ran {
      assert !Runnable(f, i);
    }
  }

  /** Without set, every callback waits. */
  lemma UnsetBlocks(f: Future)
    requires Inv(f) && Quiet(f) && f.phase != Complete
    ensures forall i :: 0 <= i < |f.stages| ==> f.stages[i] == Waiting
  {
    TallyZero(f.stages, Granted);
    forall i | 0 <= i < |f.stages| ensures f.stages[i] == Waiting {
      assert !Runnable(f, i);
    }
  }

  function Left(s: Stage): nat {
    match s
    case Retry => 4
    case Waiting => 3
    case Granted => 2
    case Upped => 1
    case Ran => 0
  }

  lemma RunWorks(f: Future, i: nat)
    requires Inv(f) && Runnable(f, i)
    ensures Step(f, Run(i)).Some? && Sum(Step(f, Run(i)).value.stages, Left) < Sum(f.stages, Left)
  {
    match f.stages[i]
    case Retry => SumSet(f.stages, Left, i, if f.sem.count > 0 then Granted else Waiting);
    case Granted =>
      MoveQueued(f.sem, f.stages, Waiting, i, Upped);
      FinishWorks(f.stages, Left, i, Upped, f.sem, Waiting, Granted);
    case Upped => SumSet(f.stages, Left, i, Ran);
  }

  /** Left to itself, under any schedule, it settles: so after set every callback runs. */
  lemma {:induction false} Settles(f: Future, acts: seq<Action>)
    requires Inv(f) && Steps(f, acts).Some? && forall k :: 0 <= k < |acts| ==> acts[k].Run?
    ensures |acts| <= Sum(f.stages, Left)
    decreases |acts|
  {
    if acts != [] {
      StepKeeps(f, acts[0]);
      RunWorks(f, acts[0].i);
      Settles(Step(f, acts[0]).value, acts[1..]);
    }
  }

  // ---- is_set ----

  predicate IsSet(f: Future) {
    f.sem.count == 1
  }

  /** is_set is true exactly when set has been called and no callback holds the unit. */
  lemma IsSetWhen(f: Future)
    requires Inv(f)
    ensures IsSet(f) <==> f.phase == Complete && forall i :: 0 <= i < |f.stages| ==> f.stages[i] != Granted
  {
    TallyZero(f.stages, Granted);
  }

  /** A coroutine that asks goes on at once exactly when the future says that it is set. */
  lemma AwaitWhen(f: Future)
    requires Inv(f)
    ensures Step(f, Await).Some? && |Step(f, Await).value.stages| == |f.stages| + 1
    ensures Step(f, Await).value.stages[|f.stages|] == (if IsSet(f) then Granted else Retry)
  {
  }

  /** So it can be false of a future that has been set. */
  lemma IsSetMissesASetFuture() returns (f: Future)
    ensures Steps(Start(), [Get, Write(5), Publish]) == Some(f) && f.phase == Complete && !IsSet(f)
  {
    var f1 := Step(Start(), Get).value;
    var f2 := Step(f1, Write(5)).value;
    f := Step(f2, Publish).value;
    var acts := [Get, Write(5), Publish];
    assert acts[1..] == [Write(5), Publish] && acts[1..][1..] == [Publish] && acts[1..][1..][1..] == [];
    assert Steps(f2, [Publish]) == Some(f) by { assert Steps(f, []) == Some(f); }
    assert Steps(f1, acts[1..]) == Some(f);
  }
}

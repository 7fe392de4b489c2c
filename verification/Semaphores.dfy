/** The counting semaphore as a value, and how it keeps step with the events that use it.

    A protocol names each event by its place in a list of stages.  A semaphore holds the places of the
    events that wait for it, oldest first.
 */
module Semaphores {
  import opened Words

  /** A count of units and the events that wait for one, oldest first. */
  datatype Sem<E> = Sem(count: nat, waiting: seq<E>)

  /** down: true in the second part when the event may run at once. */
  function Down<E>(s: Sem<E>, e: E): (Sem<E>, bool) {
    if s.count > 0 then (s.(count := s.count - 1), true) else (s.(waiting := s.waiting + [e]), false)
  }

  /** up: hands the unit to the oldest waiter, or keeps it. */
  function Up<E>(s: Sem<E>): Sem<E> {
    if s.waiting != [] then s.(waiting := s.waiting[1..]) else s.(count := s.count + 1)
  }

  /** The stages after up: the event that was handed the unit is at stage g. */
  function Wake<T>(s: Sem<nat>, stages: seq<T>, g: T): seq<T> {
    if s.waiting != [] && s.waiting[0] < |stages| then stages[s.waiting[0] := g] else stages
  }

  /** The events waiting for s are those at stage w, each once; with a unit left nobody waits. */
  ghost predicate Queued<T>(s: Sem<nat>, stages: seq<T>, w: T) {
    && (s.count > 0 ==> s.waiting == [])
    && (forall i: nat :: multiset(s.waiting)[i] == if i < |stages| && stages[i] == w then 1 else 0)
  }

  /** The oldest waiter is at stage w and listed once. */
  lemma OldestWaits<T>(s: Sem<nat>, stages: seq<T>, w: T)
    requires Queued(s, stages, w) && s.waiting != []
    ensures s.waiting[0] < |stages| && stages[s.waiting[0]] == w && s.count == 0
    ensures multiset(s.waiting[1..]) == multiset(s.waiting)[s.waiting[0] := 0]
  {
    var i := s.waiting[0];
    assert s.waiting == [i] + s.waiting[1..];
    assert multiset(s.waiting)[i] > 0;
  }

  /** Nobody waits exactly when no event is at stage w. */
  lemma NobodyWaits<T>(s: Sem<nat>, stages: seq<T>, w: T)
    requires Queued(s, stages, w)
    ensures s.waiting == [] <==> forall i :: 0 <= i < |stages| ==> stages[i] != w
  {
    if s.waiting != [] {
      OldestWaits(s, stages, w);
    } else {
      forall i: nat | i < |stages| ensures stages[i] != w {
        assert multiset(s.waiting)[i] == 0;
      }
    }
  }

  /** How many events are at stage t. */
  function Tally<T(==)>(stages: seq<T>, t: T): nat {
    multiset(stages)[t]
  }

  lemma TallyMove<T>(stages: seq<T>, i: nat, t: T)
    requires i < |stages| && stages[i] != t
    ensures Tally(stages[i := t], t) == Tally(stages, t) + 1
    ensures Tally(stages[i := t], stages[i]) == Tally(stages, stages[i]) - 1
    ensures forall u :: u != t && u != stages[i] ==> Tally(stages[i := t], u) == Tally(stages, u)
  {
  }

  lemma TallyAdd<T>(stages: seq<T>, t: T)
    ensures Tally(stages + [t], t) == Tally(stages, t) + 1
    ensures forall u :: u != t ==> Tally(stages + [t], u) == Tally(stages, u)
  {
  }

  lemma TallyZero<T>(stages: seq<T>, t: T)
    ensures Tally(stages, t) == 0 <==> forall i :: 0 <= i < |stages| ==> stages[i] != t
  {
    if t in multiset(stages) {
      assert t in stages;
    }
  }

  /** A new event, granted at once or made to wait. */
  lemma DownQueued<T>(s: Sem<nat>, stages: seq<T>, w: T, g: T)
    requires Queued(s, stages, w) && w != g
    ensures var (s', granted) := Down(s, |stages|);
            && Queued(s', stages + [if granted then g else w], w)
            && s'.count + (if granted then 1 else 0) == s.count
  {
  }

  /** An event that moves between other stages. */
  lemma MoveQueued<T>(s: Sem<nat>, stages: seq<T>, w: T, i: nat, t: T)
    requires Queued(s, stages, w) && i < |stages| && stages[i] != w && t != w
    ensures Queued(s, stages[i := t], w)
  {
  }

  /** A new event at another stage. */
  lemma AddQueued<T>(s: Sem<nat>, stages: seq<T>, w: T, t: T)
    requires Queued(s, stages, w) && t != w
    ensures Queued(s, stages + [t], w)
  {
  }

  /** A waiter that is woken, or a unit that is kept: in either case there is one more unit about. */
  lemma UpQueued<T>(s: Sem<nat>, stages: seq<T>, w: T, g: T)
    requires Queued(s, stages, w) && w != g
    ensures Queued(Up(s), Wake(s, stages, g), w) && |Wake(s, stages, g)| == |stages|
    ensures s.waiting != [] ==> s.count == 0
    ensures Up(s).count + Tally(Wake(s, stages, g), g) == s.count + Tally(stages, g) + 1
    ensures Tally(Wake(s, stages, g), w) == Tally(stages, w) - (if s.waiting == [] then 0 else 1)
    ensures forall u :: u != g && u != w ==> Tally(Wake(s, stages, g), u) == Tally(stages, u)
    ensures forall i :: 0 <= i < |stages| && stages[i] != w ==> Wake(s, stages, g)[i] == stages[i]
    ensures forall i :: 0 <= i < |stages| && stages[i] == w ==> Wake(s, stages, g)[i] == w || Wake(s, stages, g)[i] == g
  {
    if s.waiting != [] {
      OldestWaits(s, stages, w);
      TallyMove(stages, s.waiting[0], g);
    }
  }

  /** Waking a waiter of one semaphore does not disturb those of another. */
  lemma WakeQueued<T>(s: Sem<nat>, other: Sem<nat>, stages: seq<T>, w: T, g: T, w': T)
    requires Queued(s, stages, w) && Queued(other, stages, w') && w != w' && g != w'
    ensures Queued(other, Wake(s, stages, g), w')
  {
    if s.waiting != [] {
      OldestWaits(s, stages, w);
    }
  }

  // ---- Events are granted in the order of their downs ----

  /** The calls on one semaphore. */
  datatype Op<E> = DownOp(e: E) | UpOp

  /** The events that come to the semaphore, and the ups. */
  function Arrived<E>(ops: seq<Op<E>>): seq<E> {
    if ops == [] then [] else (if ops[0].DownOp? then [ops[0].e] else []) + Arrived(ops[1..])
  }

  function Ups<E>(ops: seq<Op<E>>): nat {
    if ops == [] then 0 else (if ops[0].UpOp? then 1 else 0) + Ups(ops[1..])
  }

  /** The semaphore after one call, and the event that the call grants. */
  function Call<E>(s: Sem<E>, op: Op<E>): (Sem<E>, seq<E>) {
    match op
    case DownOp(e) => (Down(s, e).0, if Down(s, e).1 then [e] else [])
    case UpOp => (Up(s), if s.waiting != [] then [s.waiting[0]] else [])
  }

  /** The events granted by all of them, in order. */
  function Served<E>(s: Sem<E>, ops: seq<Op<E>>): seq<E>
    decreases |ops|
  {
    if ops == [] then [] else Call(s, ops[0]).1 + Served(Call(s, ops[0]).0, ops[1..])
  }

  lemma FirstOf<E>(granted: seq<E>, rest: seq<E>, all: seq<E>, n: nat)
    requires granted + rest == all && |granted| <= n
    ensures granted + rest[..Min(|rest|, n - |granted|)] == all[..Min(|all|, n)]
  {
  }

  /** What one call leaves for the others. */
  lemma CallServes<E>(s: Sem<E>, op: Op<E>)
    requires s.count > 0 ==> s.waiting == []
    ensures var (s', granted) := Call(s, op);
            && (s'.count > 0 ==> s'.waiting == [])
            && granted + s'.waiting == s.waiting + (if op.DownOp? then [op.e] else [])
            && s'.count + |granted| == s.count + if op.UpOp? then 1 else 0
  {
  }

  lemma Regroup<E>(a: seq<E>, b: seq<E>, c: seq<E>, d: seq<E>, e: seq<E>)
    requires a + b == c + d
    ensures a + (b + e) == c + (d + e)
  {
    assert a + (b + e) == (a + b) + e;
    assert c + (d + e) == (c + d) + e;
  }

  lemma {:induction false} ServedFrom<E>(s: Sem<E>, ops: seq<Op<E>>)
    requires s.count > 0 ==> s.waiting == []
    ensures var all := s.waiting + Arrived(ops);
            Served(s, ops) == all[..Min(|all|, s.count + Ups(ops))]
    decreases |ops|
  {
    if ops != [] {
      var op, rest := ops[0], ops[1..];
      var (s', granted) := Call(s, op);
      CallServes(s, op);
      ServedFrom(s', rest);
      Regroup(granted, s'.waiting, s.waiting, if op.DownOp? then [op.e] else [], Arrived(rest));
      FirstOf(granted, s'.waiting + Arrived(rest), s.waiting + Arrived(ops), s.count + Ups(ops));
    }
  }

  /** From n units, whatever calls are made: the events granted are the first ones to come, as many as there
      have been units and ups. */
  lemma FirstComeFirstServed<E>(n: nat, ops: seq<Op<E>>)
    ensures Served(Sem(n, []), ops) == Arrived(ops)[..Min(|Arrived(ops)|, n + Ups(ops))]
  {
    ServedFrom(Sem(n, []), ops);
    assert [] + Arrived(ops) == Arrived(ops);
  }

  // ---- How much is left to do ----

  /** Moving event i on and waking a waiter leaves less to do. */
  lemma FinishWorks<T>(stages: seq<T>, left: T -> nat, i: nat, t: T, s: Sem<nat>, w: T, g: T)
    requires i < |stages| && left(t) < left(stages[i]) && left(g) < left(w) && Queued(s, stages[i := t], w)
    ensures Sum(Wake(s, stages[i := t], g), left) < Sum(stages, left)
  {
    SumSet(stages, left, i, t);
    if s.waiting != [] {
      OldestWaits(s, stages[i := t], w);
      SumSet(stages[i := t], left, s.waiting[0], g);
    }
  }
}

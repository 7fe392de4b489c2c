/** The bounded buffer behind a pipe: put and get as events of several steps over two semaphores, with
    the steps of any number of events interleaved in any order.

    Which granted event runs next, and on which core, is left open: the ready queue and the cores are
    replaced by a free choice, so what is proved here holds for every schedule.
 */
module BoundedBuffers {
  import opened Words
  import opened Wrappers
  import opened Semaphores

  /** A put waits for a slot, adds its value, ups `full`; a get waits for a value, removes it, ups
      `empty`. */
  datatype Stage = PutWaiting | PutGranted | PutAdded | PutDone | GetWaiting | GetGranted | GetRemoved | GetDone

  /** values[i] is what put i puts, or what get i got.  `added` and `removed` record which put added and
      which get removed, in order; the code does not keep them. */
  datatype Buffer = Buffer(empty: Sem<nat>, full: Sem<nat>, queue: seq<int>, stages: seq<Stage>, values: seq<int>,
                           added: seq<nat>, removed: seq<nat>)

  datatype Action = Put(v: int) | Get | Run(i: nat)

  function Start(n: nat): Buffer {
    Buffer(Sem(n, []), Sem(0, []), [], [], [], [], [])
  }

  /** One step; None when the event is not runnable, or when get removes from an empty queue and so
      follows a null pointer. */
  function Step(b: Buffer, a: Action): Option<Buffer> {
    match a
    case Put(v) =>
      var (empty, now) := Down(b.empty, |b.stages|);
      Some(b.(empty := empty, stages := b.stages + [if now then PutGranted else PutWaiting], values := b.values + [v]))
    case Get =>
      var (full, now) := Down(b.full, |b.stages|);
      Some(b.(full := full, stages := b.stages + [if now then GetGranted else GetWaiting], values := b.values + [0]))
    case Run(i) =>
      if i >= |b.stages| || i >= |b.values| then None
      else match b.stages[i]
      case PutGranted =>
        Some(b.(queue := b.queue + [b.values[i]], stages := b.stages[i := PutAdded], added := b.added + [i]))
      case PutAdded => Some(b.(full := Up(b.full), stages := Wake(b.full, b.stages[i := PutDone], GetGranted)))
      case GetGranted =>
        if b.queue == [] then None
        else Some(b.(queue := b.queue[1..], stages := b.stages[i := GetRemoved],
                     values := b.values[i := b.queue[0]], removed := b.removed + [i]))
      case GetRemoved => Some(b.(empty := Up(b.empty), stages := Wake(b.empty, b.stages[i := GetDone], PutGranted)))
      case _ => None
  }

  predicate Runnable(b: Buffer, i: nat) {
    i < |b.stages| && b.stages[i] in {PutGranted, PutAdded, GetGranted, GetRemoved}
  }

  /** A put that has added its value, or a get that has removed one. */
  predicate Past(put: bool, s: Stage) {
    if put then s == PutAdded || s == PutDone else s == GetRemoved || s == GetDone
  }

  // ---- The invariant ----

  /** Where the n slots and the queued values are. */
  ghost predicate Counts(b: Buffer, n: nat) {
    && b.empty.count + Tally(b.stages, PutGranted) + |b.queue| + Tally(b.stages, GetRemoved) == n
    && b.full.count + Tally(b.stages, GetGranted) + Tally(b.stages, PutAdded) == |b.queue|
    && |b.added| == Tally(b.stages, PutAdded) + Tally(b.stages, PutDone)
    && |b.removed| == Tally(b.stages, GetRemoved) + Tally(b.stages, GetDone)
    && |b.values| == |b.stages|
  }

  ghost predicate Waiters(b: Buffer) {
    Queued(b.empty, b.stages, PutWaiting) && Queued(b.full, b.stages, GetWaiting)
  }

  /** `js` lists the puts that have added, or the gets that have removed, each once. */
  ghost predicate Lists(js: seq<nat>, stages: seq<Stage>, put: bool) {
    forall i: nat :: multiset(js)[i] == if i < |stages| && Past(put, stages[i]) then 1 else 0
  }

  function Value(values: seq<int>, i: nat): int {
    if i < |values| then values[i] else 0
  }

  /** The values of the listed events, in order. */
  function ValuesOf(values: seq<int>, js: seq<nat>): seq<int> {
    seq(|js|, k requires 0 <= k < |js| => Value(values, js[k]))
  }

  /** The values added are the values removed followed by the queue. */
  ghost predicate Fifo(b: Buffer) {
    ValuesOf(b.values, b.added) == ValuesOf(b.values, b.removed) + b.queue
  }

  /** Each put that has added is listed once, and so is each get that has removed. */
  ghost predicate Once(b: Buffer) {
    Lists(b.added, b.stages, true) && Lists(b.removed, b.stages, false)
  }

  ghost predicate Inv(b: Buffer, n: nat) {
    Counts(b, n) && Waiters(b) && Fifo(b) && Once(b)
  }

  // ---- Each kind of step keeps it ----

  lemma ListsMove(js: seq<nat>, stages: seq<Stage>, put: bool, i: nat, t: Stage)
    requires Lists(js, stages, put) && i < |stages| && Past(put, t) == Past(put, stages[i])
    ensures Lists(js, stages[i := t], put)
  {
  }

  lemma ListsAdd(js: seq<nat>, stages: seq<Stage>, put: bool, i: nat, t: Stage)
    requires Lists(js, stages, put) && i < |stages| && Past(put, t) && !Past(put, stages[i])
    ensures Lists(js + [i], stages[i := t], put)
  {
  }

  lemma ListsNew(js: seq<nat>, stages: seq<Stage>, put: bool, t: Stage)
    requires Lists(js, stages, put) && !Past(put, t)
    ensures Lists(js, stages + [t], put)
  {
  }

  lemma ListsWake(js: seq<nat>, s: Sem<nat>, stages: seq<Stage>, put: bool, w: Stage, g: Stage)
    requires Lists(js, stages, put) && Queued(s, stages, w) && !Past(put, w) && !Past(put, g)
    ensures Lists(js, Wake(s, stages, g), put)
  {
    if s.waiting != [] {
      OldestWaits(s, stages, w);
      ListsMove(js, stages, put, s.waiting[0], g);
    }
  }

  lemma ListsMember(js: seq<nat>, stages: seq<Stage>, put: bool, k: nat)
    requires Lists(js, stages, put) && k < |js|
    ensures js[k] < |stages| && Past(put, stages[js[k]])
  {
    assert multiset(js)[js[k]] > 0;
  }

  /** Values of listed events do not change when others do. */
  lemma SameValues(values: seq<int>, values': seq<int>, js: seq<nat>)
    requires forall k :: 0 <= k < |js| ==> Value(values', js[k]) == Value(values, js[k])
    ensures ValuesOf(values', js) == ValuesOf(values, js)
  {
  }

  /** A new event at stage t with value v. */
  lemma NewKeeps(b: Buffer, n: nat, t: Stage, v: int) returns (b': Buffer)
    requires Inv(b, n) && !Past(true, t) && !Past(false, t)
    ensures b' == b.(stages := b.stages + [t], values := b.values + [v])
    ensures Fifo(b') && Once(b')
  {
    b' := b.(stages := b.stages + [t], values := b.values + [v]);
    ListsNew(b.added, b.stages, true, t);
    ListsNew(b.removed, b.stages, false, t);
    forall k: nat | k < |b.added| ensures b.added[k] < |b.stages| { ListsMember(b.added, b.stages, true, k); }
    forall k: nat | k < |b.removed| ensures b.removed[k] < |b.stages| { ListsMember(b.removed, b.stages, false, k); }
    SameValues(b.values, b'.values, b.added);
    SameValues(b.values, b'.values, b.removed);
  }

  lemma PutCounts(b: Buffer, n: nat, b': Buffer, v: int)
    requires Counts(b, n) && Step(b, Put(v)) == Some(b')
    ensures Counts(b', n)
  {
    TallyAdd(b.stages, if b.empty.count > 0 then PutGranted else PutWaiting);
  }

  lemma PutKeeps(b: Buffer, n: nat, v: int) returns (b': Buffer)
    requires Inv(b, n)
    ensures Step(b, Put(v)) == Some(b') && Inv(b', n)
  {
    var (empty, now) := Down(b.empty, |b.stages|);
    var t := if now then PutGranted else PutWaiting;
    var b1 := NewKeeps(b, n, t, v);
    b' := Step(b, Put(v)).value;
    PutCounts(b, n, b', v);
    assert b' == b1.(empty := empty);
    assert Waiters(b') by {
      DownQueued(b.empty, b.stages, PutWaiting, PutGranted);
      AddQueued(b.full, b.stages, GetWaiting, t);
    }
  }

  lemma GetCounts(b: Buffer, n: nat, b': Buffer)
    requires Counts(b, n) && Step(b, Get) == Some(b')
    ensures Counts(b', n)
  {
    TallyAdd(b.stages, if b.full.count > 0 then GetGranted else GetWaiting);
  }

  lemma GetKeeps(b: Buffer, n: nat) returns (b': Buffer)
    requires Inv(b, n)
    ensures Step(b, Get) == Some(b') && Inv(b', n)
  {
    var (full, now) := Down(b.full, |b.stages|);
    var t := if now then GetGranted else GetWaiting;
    var b1 := NewKeeps(b, n, t, 0);
    b' := Step(b, Get).value;
    GetCounts(b, n, b');
    assert b' == b1.(full := full);
    assert Waiters(b') by {
      DownQueued(b.full, b.stages, GetWaiting, GetGranted);
      AddQueued(b.empty, b.stages, PutWaiting, t);
    }
  }

  lemma MoveWaiters(b: Buffer, i: nat, t: Stage)
    requires Waiters(b) && i < |b.stages| && b.stages[i] !in {PutWaiting, GetWaiting} && t !in {PutWaiting, GetWaiting}
    ensures Waiters(b.(stages := b.stages[i := t]))
  {
    MoveQueued(b.empty, b.stages, PutWaiting, i, t);
    MoveQueued(b.full, b.stages, GetWaiting, i, t);
  }

  lemma AddCounts(b: Buffer, n: nat, i: nat, b': Buffer)
    requires Counts(b, n) && i < |b.stages| && b.stages[i] == PutGranted && Step(b, Run(i)) == Some(b')
    ensures Counts(b', n)
  {
    TallyMove(b.stages, i, PutAdded);
  }

  lemma AddStep(b: Buffer, i: nat) returns (b': Buffer)
    requires i < |b.stages| == |b.values| && b.stages[i] == PutGranted
    ensures Step(b, Run(i)) == Some(b')
    ensures b' == b.(queue := b.queue + [b.values[i]], stages := b.stages[i := PutAdded], added := b.added + [i])
  {
    b' := Step(b, Run(i)).value;
  }

  lemma AddKeeps(b: Buffer, n: nat, i: nat) returns (b': Buffer)
    requires Inv(b, n) && i < |b.stages| && b.stages[i] == PutGranted
    ensures Step(b, Run(i)) == Some(b') && Inv(b', n)
  {
    b' := AddStep(b, i);
    AddCounts(b, n, i, b');
    MoveWaiters(b, i, PutAdded);
    ListsAdd(b.added, b.stages, true, i, PutAdded);
    ListsMove(b.removed, b.stages, false, i, PutAdded);
    AddFifo(b, b', i);
  }

  lemma AddFifo(b: Buffer, b': Buffer, i: nat)
    requires Fifo(b) && b'.values == b.values && b'.queue == b.queue + [Value(b.values, i)] && b'.added == b.added + [i]
    requires b'.removed == b.removed
    ensures Fifo(b')
  {
    SameValues(b.values, b'.values, b.added);
    SameValues(b.values, b'.values, b.removed);
    assert ValuesOf(b'.values, b'.added) == ValuesOf(b'.values, b.added) + [Value(b.values, i)];
  }

  /** A granted get finds a value. */
  lemma GrantedFinds(b: Buffer, n: nat, i: nat)
    requires Inv(b, n) && i < |b.stages| && b.stages[i] == GetGranted
    ensures b.queue != []
  {
    TallyZero(b.stages, GetGranted);
  }

  lemma RemoveCounts(b: Buffer, n: nat, i: nat, b': Buffer)
    requires Counts(b, n) && i < |b.stages| && b.stages[i] == GetGranted && Step(b, Run(i)) == Some(b')
    ensures Counts(b', n)
  {
    TallyMove(b.stages, i, GetRemoved);
  }

  lemma RemoveStep(b: Buffer, i: nat) returns (b': Buffer)
    requires i < |b.stages| == |b.values| && b.stages[i] == GetGranted && b.queue != []
    ensures Step(b, Run(i)) == Some(b')
    ensures b' == b.(queue := b.queue[1..], stages := b.stages[i := GetRemoved],
                     values := b.values[i := b.queue[0]], removed := b.removed + [i])
  {
    b' := Step(b, Run(i)).value;
  }

  lemma RemoveKeeps(b: Buffer, n: nat, i: nat) returns (b': Buffer)
    requires Inv(b, n) && i < |b.stages| && b.stages[i] == GetGranted
    ensures Step(b, Run(i)) == Some(b') && Inv(b', n)
  {
    GrantedFinds(b, n, i);
    b' := RemoveStep(b, i);
    RemoveCounts(b, n, i, b');
    MoveWaiters(b, i, GetRemoved);
    ListsMove(b.added, b.stages, true, i, GetRemoved);
    ListsAdd(b.removed, b.stages, false, i, GetRemoved);
    forall k: nat | k < |b.added| ensures b.added[k] != i { ListsMember(b.added, b.stages, true, k); }
    forall k: nat | k < |b.removed| ensures b.removed[k] != i { ListsMember(b.removed, b.stages, false, k); }
    RemoveFifo(b, b', i);
  }

  lemma RemoveFifo(b: Buffer, b': Buffer, i: nat)
    requires Fifo(b) && i < |b.values| && b.queue != []
    requires b'.values == b.values[i := b.queue[0]] && b'.queue == b.queue[1..] && b'.added == b.added
    requires b'.removed == b.removed + [i]
    requires i !in b.added && i !in b.removed
    ensures Fifo(b')
  {
    SameValues(b.values, b'.values, b.added);
    SameValues(b.values, b'.values, b.removed);
    assert ValuesOf(b'.values, b'.removed) == ValuesOf(b'.values, b.removed) + [b.queue[0]];
  }

  /** The step in which event i, done, ups a semaphore and so may wake a waiter. */
  lemma FinishLists(b: Buffer, i: nat, t: Stage, s: Sem<nat>, w: Stage, g: Stage) returns (b': Buffer)
    requires Fifo(b) && Once(b) && Waiters(b) && i < |b.stages|
    requires Past(true, t) == Past(true, b.stages[i]) && Past(false, t) == Past(false, b.stages[i])
    requires Queued(s, b.stages[i := t], w) && !Past(true, w) && !Past(true, g) && !Past(false, w) && !Past(false, g)
    ensures b' == b.(stages := Wake(s, b.stages[i := t], g)) && Fifo(b') && Once(b')
  {
    b' := b.(stages := Wake(s, b.stages[i := t], g));
    ListsMove(b.added, b.stages, true, i, t);
    ListsMove(b.removed, b.stages, false, i, t);
    ListsWake(b.added, s, b.stages[i := t], true, w, g);
    ListsWake(b.removed, s, b.stages[i := t], false, w, g);
  }

  lemma UpFullCounts(b: Buffer, n: nat, i: nat, b': Buffer)
    requires Counts(b, n) && i < |b.stages| && b.stages[i] == PutAdded
    requires Queued(b.full, b.stages[i := PutDone], GetWaiting)
    requires b' == b.(full := Up(b.full), stages := Wake(b.full, b.stages[i := PutDone], GetGranted))
    ensures Counts(b', n)
  {
    TallyMove(b.stages, i, PutDone);
    UpQueued(b.full, b.stages[i := PutDone], GetWaiting, GetGranted);
  }

  lemma UpFullStep(b: Buffer, i: nat) returns (b': Buffer)
    requires i < |b.stages| == |b.values| && b.stages[i] == PutAdded
    ensures Step(b, Run(i)) == Some(b')
    ensures b' == b.(full := Up(b.full), stages := Wake(b.full, b.stages[i := PutDone], GetGranted))
  {
    b' := Step(b, Run(i)).value;
  }

  lemma UpFullKeeps(b: Buffer, n: nat, i: nat) returns (b': Buffer)
    requires Inv(b, n) && i < |b.stages| && b.stages[i] == PutAdded
    ensures Step(b, Run(i)) == Some(b') && Inv(b', n)
  {
    var st := b.stages[i := PutDone];
    MoveWaiters(b, i, PutDone);
    var b1 := FinishLists(b, i, PutDone, b.full, GetWaiting, GetGranted);
    b' := UpFullStep(b, i);
    UpFullCounts(b, n, i, b');
    UpWaits(b.full, b.empty, st, GetWaiting, GetGranted, PutWaiting);
  }

  lemma UpEmptyCounts(b: Buffer, n: nat, i: nat, b': Buffer)
    requires Counts(b, n) && i < |b.stages| && b.stages[i] == GetRemoved
    requires Queued(b.empty, b.stages[i := GetDone], PutWaiting)
    requires b' == b.(empty := Up(b.empty), stages := Wake(b.empty, b.stages[i := GetDone], PutGranted))
    ensures Counts(b', n)
  {
    TallyMove(b.stages, i, GetDone);
    UpQueued(b.empty, b.stages[i := GetDone], PutWaiting, PutGranted);
  }

  lemma UpEmptyStep(b: Buffer, i: nat) returns (b': Buffer)
    requires i < |b.stages| == |b.values| && b.stages[i] == GetRemoved
    ensures Step(b, Run(i)) == Some(b')
    ensures b' == b.(empty := Up(b.empty), stages := Wake(b.empty, b.stages[i := GetDone], PutGranted))
  {
    b' := Step(b, Run(i)).value;
  }

  lemma UpEmptyKeeps(b: Buffer, n: nat, i: nat) returns (b': Buffer)
    requires Inv(b, n) && i < |b.stages| && b.stages[i] == GetRemoved
    ensures Step(b, Run(i)) == Some(b') && Inv(b', n)
  {
    var st := b.stages[i := GetDone];
    MoveWaiters(b, i, GetDone);
    var b1 := FinishLists(b, i, GetDone, b.empty, PutWaiting, PutGranted);
    b' := UpEmptyStep(b, i);
    UpEmptyCounts(b, n, i, b');
    UpWaits(b.empty, b.full, st, PutWaiting, PutGranted, GetWaiting);
  }

  lemma UpWaits(s: Sem<nat>, other: Sem<nat>, stages: seq<Stage>, w: Stage, g: Stage, w': Stage)
    requires Queued(s, stages, w) && Queued(other, stages, w') && w != w' && g != w' && w != g
    ensures Queued(Up(s), Wake(s, stages, g), w) && Queued(other, Wake(s, stages, g), w')
  {
    UpQueued(s, stages, w, g);
    WakeQueued(s, other, stages, w, g, w');
  }

  /** Every step keeps the invariant, and only an event that is not runnable cannot step: no get ever
      follows a null pointer. */
  lemma StepKeeps(b: Buffer, n: nat, a: Action)
    requires Inv(b, n)
    ensures Step(b, a).Some? <==> (a.Run? ==> Runnable(b, a.i))
    ensures Step(b, a).Some? ==> Inv(Step(b, a).value, n)
  {
    match a
    case Put(v) => var b' := PutKeeps(b, n, v);
    case Get => var b' := GetKeeps(b, n);
    case Run(i) =>
      if i < |b.stages| {
        match b.stages[i]
        case PutGranted => var b' := AddKeeps(b, n, i);
        case PutAdded => var b' := UpFullKeeps(b, n, i);
        case GetGranted => var b' := RemoveKeeps(b, n, i);
        case GetRemoved => var b' := UpEmptyKeeps(b, n, i);
        case _ =>
      }
  }

  // ---- Runs ----

  function Steps(b: Buffer, acts: seq<Action>): Option<Buffer>
    decreases |acts|
  {
    if acts == [] then Some(b)
    else
      var b' :- Step(b, acts[0]);
      Steps(b', acts[1..])
  }

  lemma {:induction false} RunKeeps(b: Buffer, n: nat, acts: seq<Action>)
    requires Inv(b, n) && Steps(b, acts).Some?
    ensures Inv(Steps(b, acts).value, n)
    decreases |acts|
  {
    if acts != [] {
      StepKeeps(b, n, acts[0]);
      RunKeeps(Step(b, acts[0]).value, n, acts[1..]);
    }
  }

  /** In every state of every run: the slots and values add up, at most n values are queued, the values
      added are the values removed followed by the queue, and each put and each get counts once. */
  lemma EveryRun(n: nat, acts: seq<Action>)
    requires Steps(Start(n), acts).Some?
    ensures var b := Steps(Start(n), acts).value;
            Inv(b, n) && |b.queue| <= n
  {
    assert Inv(Start(n), n);
    RunKeeps(Start(n), n, acts);
  }

  // ---- The calls of a run ----

  /** The puts and gets of a run: call i makes event i. */
  function Calls(acts: seq<Action>): seq<Action> {
    if acts == [] then []
    else CallOf(acts[0]) + Calls(acts[1..])
  }

  predicate PutStage(s: Stage) {
    s in {PutWaiting, PutGranted, PutAdded, PutDone}
  }

  /** Event i is what call `a` made: a put with the value of the call, or a get. */
  ghost predicate MadeBy(b: Buffer, i: nat, a: Action) {
    && i < |b.stages| && i < |b.values|
    && if PutStage(b.stages[i]) then a == Put(b.values[i]) else a == Get
  }

  lemma MadeStays(b: Buffer, a: Action, i: nat, call: Action)
    requires Waiters(b) && Step(b, a).Some? && MadeBy(b, i, call)
    ensures MadeBy(Step(b, a).value, i, call)
  {
    if a.Run? { WakesItsKind(b, a.i); }
  }

  /** A put wakes a get, and a get a put. */
  lemma WakesItsKind(b: Buffer, i: nat)
    requires Waiters(b) && i < |b.stages|
    ensures b.stages[i] == PutAdded && b.full.waiting != [] ==>
              b.full.waiting[0] < |b.stages| && b.stages[b.full.waiting[0]] == GetWaiting
    ensures b.stages[i] == GetRemoved && b.empty.waiting != [] ==>
              b.empty.waiting[0] < |b.stages| && b.stages[b.empty.waiting[0]] == PutWaiting
  {
    if b.full.waiting != [] { OldestWaits(b.full, b.stages, GetWaiting); }
    if b.empty.waiting != [] { OldestWaits(b.empty, b.stages, PutWaiting); }
  }

  /** A call makes the next event, and other steps none. */
  lemma CallMakes(b: Buffer, a: Action)
    requires Waiters(b) && |b.values| == |b.stages| && Step(b, a).Some?
    ensures |Step(b, a).value.stages| == |b.stages| + if a.Run? then 0 else 1
    ensures !a.Run? ==> MadeBy(Step(b, a).value, |b.stages|, a)
  {
  }

  /** The events of b are those of the calls made so far. */
  ghost predicate MadeByAll(b: Buffer, calls: seq<Action>) {
    |b.stages| == |calls| && forall i :: 0 <= i < |calls| ==> MadeBy(b, i, calls[i])
  }

  /** The call that action a is, if it is one. */
  function CallOf(a: Action): seq<Action> {
    if a.Run? then [] else [a]
  }

  lemma StepMakes(b: Buffer, n: nat, before: seq<Action>, a: Action)
    requires Inv(b, n) && Step(b, a).Some? && MadeByAll(b, before)
    ensures MadeByAll(Step(b, a).value, before + CallOf(a))
  {
    CallMakes(b, a);
    forall i | 0 <= i < |before| ensures MadeBy(Step(b, a).value, i, before[i]) {
      MadeStays(b, a, i, before[i]);
    }
  }

  lemma CallsNext(before: seq<Action>, acts: seq<Action>)
    requires acts != []
    ensures before + Calls(acts) == before + CallOf(acts[0]) + Calls(acts[1..])
  {
  }

  lemma {:induction false} RunMakes(b: Buffer, n: nat, before: seq<Action>, acts: seq<Action>)
    requires Inv(b, n) && Steps(b, acts).Some? && MadeByAll(b, before)
    ensures MadeByAll(Steps(b, acts).value, before + Calls(acts))
    decreases |acts|
  {
    if acts == [] {
      assert before + Calls(acts) == before;
    } else {
      StepKeeps(b, n, acts[0]);
      StepMakes(b, n, before, acts[0]);
      RunMakes(Step(b, acts[0]).value, n, before + CallOf(acts[0]), acts[1..]);
      CallsNext(before, acts);
    }
  }

  lemma Paired(b: Buffer, n: nat, k: nat)
    requires Inv(b, n) && k < |b.removed|
    ensures k < |b.added| && b.added[k] < |b.stages| && b.removed[k] < |b.stages| == |b.values|
    ensures PutStage(b.stages[b.added[k]]) && !PutStage(b.stages[b.removed[k]])
    ensures b.values[b.removed[k]] == b.values[b.added[k]]
  {
    assert |ValuesOf(b.values, b.added)| == |ValuesOf(b.values, b.removed)| + |b.queue|;
    assert ValuesOf(b.values, b.added)[k] == ValuesOf(b.values, b.removed)[k];
    ListsMember(b.added, b.stages, true, k);
    ListsMember(b.removed, b.stages, false, k);
  }

  lemma MadeValues(b: Buffer, calls: seq<Action>, i: nat, j: nat)
    requires MadeByAll(b, calls) && i < |b.stages| && j < |b.stages| == |b.values|
    requires PutStage(b.stages[i]) && !PutStage(b.stages[j]) && b.values[i] == b.values[j]
    ensures calls[i] == Put(b.values[j]) && calls[j] == Get
  {
    assert MadeBy(b, i, calls[i]) && MadeBy(b, j, calls[j]);
  }

  /** In every run the k-th get that removes is given the value of the k-th put that added: the argument of
      that call. */
  lemma Delivered(n: nat, acts: seq<Action>, k: nat)
    requires Steps(Start(n), acts).Some? && k < |Steps(Start(n), acts).value.removed|
    ensures var b, calls := Steps(Start(n), acts).value, Calls(acts);
            && k < |b.added| && b.added[k] < |calls| && b.removed[k] < |calls| == |b.values|
            && calls[b.added[k]] == Put(b.values[b.removed[k]]) && calls[b.removed[k]] == Get
  {
    var b, calls := Steps(Start(n), acts).value, Calls(acts);
    EveryRun(n, acts);
    RunMakes(Start(n), n, [], acts);
    assert [] + calls == calls;
    Paired(b, n, k);
    MadeValues(b, calls, b.added[k], b.removed[k]);
  }

  // ---- When nothing is left to run ----

  ghost predicate Quiet(b: Buffer) {
    forall i: nat :: !Runnable(b, i)
  }

  function Puts(b: Buffer): nat {
    Tally(b.stages, PutWaiting) + Tally(b.stages, PutGranted) + Tally(b.stages, PutAdded) + Tally(b.stages, PutDone)
  }

  function Gets(b: Buffer): nat {
    Tally(b.stages, GetWaiting) + Tally(b.stages, GetGranted) + Tally(b.stages, GetRemoved) + Tally(b.stages, GetDone)
  }

  lemma QuietTallies(b: Buffer, n: nat)
    requires Inv(b, n) && Quiet(b)
    ensures Tally(b.stages, PutGranted) == Tally(b.stages, PutAdded) == Tally(b.stages, GetGranted)
              == Tally(b.stages, GetRemoved) == 0
    ensures Tally(b.stages, PutWaiting) > 0 ==> b.empty.count == 0
    ensures Tally(b.stages, GetWaiting) > 0 ==> b.full.count == 0
  {
    forall s | s in {PutGranted, PutAdded, GetGranted, GetRemoved} ensures Tally(b.stages, s) == 0 {
      forall i | 0 <= i < |b.stages| ensures b.stages[i] != s {
        assert !Runnable(b, i);
      }
      TallyZero(b.stages, s);
    }
    TallyZero(b.stages, PutWaiting);
    TallyZero(b.stages, GetWaiting);
    NobodyWaits(b.empty, b.stages, PutWaiting);
    NobodyWaits(b.full, b.stages, GetWaiting);
  }

  /** The settled state is determined by the calls alone: with P puts and G gets made so far, min(P, G+n)
      puts and min(P, G) gets have finished.  Hence no pipe is stuck: putters and getters are never
      blocked together. */
  lemma Settled(b: Buffer, n: nat)
    requires Inv(b, n) && Quiet(b) && n >= 1
    ensures Tally(b.stages, PutDone) == Min(Puts(b), Gets(b) + n)
    ensures Tally(b.stages, GetDone) == Min(Puts(b), Gets(b))
    ensures Tally(b.stages, PutWaiting) == 0 || Tally(b.stages, GetWaiting) == 0
  {
    QuietTallies(b, n);
  }

  /** How much is left to do: three steps for a waiting event down to none for a finished one. */
  function Left(s: Stage): nat {
    match s
    case PutWaiting | GetWaiting => 3
    case PutGranted | GetGranted => 2
    case PutAdded | GetRemoved => 1
    case PutDone | GetDone => 0
  }

  lemma PutWorks(b: Buffer, i: nat) returns (b': Buffer)
    requires Waiters(b) && i < |b.stages| == |b.values| && b.stages[i] in {PutGranted, PutAdded}
    ensures Step(b, Run(i)) == Some(b') && Sum(b'.stages, Left) < Sum(b.stages, Left)
  {
    if b.stages[i] == PutGranted {
      b' := AddStep(b, i);
      SumSet(b.stages, Left, i, PutAdded);
    } else {
      b' := UpFullStep(b, i);
      MoveWaiters(b, i, PutDone);
      FinishWorks(b.stages, Left, i, PutDone, b.full, GetWaiting, GetGranted);
    }
  }

  lemma GetWorks(b: Buffer, i: nat) returns (b': Buffer)
    requires Waiters(b) && i < |b.stages| == |b.values| && b.stages[i] in {GetGranted, GetRemoved}
    requires b.stages[i] == GetGranted ==> b.queue != []
    ensures Step(b, Run(i)) == Some(b') && Sum(b'.stages, Left) < Sum(b.stages, Left)
  {
    if b.stages[i] == GetGranted {
      b' := RemoveStep(b, i);
      SumSet(b.stages, Left, i, GetRemoved);
    } else {
      b' := UpEmptyStep(b, i);
      MoveWaiters(b, i, GetDone);
      FinishWorks(b.stages, Left, i, GetDone, b.empty, PutWaiting, PutGranted);
    }
  }

  lemma RunWorks(b: Buffer, n: nat, i: nat) returns (b': Buffer)
    requires Inv(b, n) && Runnable(b, i)
    ensures Step(b, Run(i)) == Some(b') && Sum(b'.stages, Left) < Sum(b.stages, Left) && Inv(b', n)
  {
    StepKeeps(b, n, Run(i));
    if b.stages[i] in {PutGranted, PutAdded} {
      b' := PutWorks(b, i);
    } else {
      if b.stages[i] == GetGranted { GrantedFinds(b, n, i); }
      b' := GetWorks(b, i);
    }
  }

  /** Left to itself, under any schedule, the buffer settles. */
  lemma {:induction false} Settles(b: Buffer, n: nat, acts: seq<Action>)
    requires Inv(b, n) && Steps(b, acts).Some? && forall k :: 0 <= k < |acts| ==> acts[k].Run?
    ensures |acts| <= Sum(b.stages, Left)
    decreases |acts|
  {
    if acts != [] {
      StepKeeps(b, n, acts[0]);
      var b' := RunWorks(b, n, acts[0].i);
      assert Steps(b', acts[1..]).Some?;
      Settles(b', n, acts[1..]);
    }
  }

  /** A state in which nothing can run while a putter and a getter are both blocked. */
  ghost predicate Stuck(b: Buffer) {
    Quiet(b) && Tally(b.stages, PutWaiting) > 0 && Tally(b.stages, GetWaiting) > 0
  }

  ghost predicate ReachesStuck(n: nat, acts: seq<Action>) {
    Steps(Start(n), acts).Some? && Stuck(Steps(Start(n), acts).value)
  }

  /** Such a state can be reached exactly when the buffer has no slots. */
  lemma StuckWhen(n: nat)
    ensures (exists acts :: ReachesStuck(n, acts)) <==> n == 0
  {
    if n == 0 {
      var b1 := Step(Start(0), Put(7)).value;
      var b2 := Step(b1, Get).value;
      var acts := [Put(7), Get];
      assert acts[1..] == [Get] && acts[1..][1..] == [];
      assert Steps(b1, [Get]) == Some(b2) by { assert Steps(b2, []) == Some(b2); }
      assert Steps(Start(0), acts) == Some(b2);
      assert b2.stages == [PutWaiting, GetWaiting];
      assert ReachesStuck(n, acts);
    } else if acts :| ReachesStuck(n, acts) {
      EveryRun(n, acts);
      Settled(Steps(Start(n), acts).value, n);
    }
  }
}

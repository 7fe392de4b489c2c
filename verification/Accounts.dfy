/** What the semaphores of the scheduler are worth, over every run.

    A call that waits for one semaphore and will up another makes its promise when it is called.  Counting
    promises, the worth of a semaphore changes only by calls, and waking and running events moves it about.
 */
module Accounts {
  import opened Words
  import S = Semaphores
  import opened Scheduling
  import J = Joining

  /** How often events still have to up semaphore i. */
  function Owes(i: nat): Event -> nat {
    (e: Event) => multiset(e.todo)[i]
  }

  function CoreOwes(i: nat): Core -> nat {
    (k: Core) => if k.Handling? then multiset(k.e.todo)[i] else 0
  }

  function SlotOwes(i: nat): Slot -> nat {
    (t: Slot) => Sum(t.sem.waiting, Owes(i))
  }

  /** The ups that are due to semaphore i from events that have been granted. */
  function Due(s: State, i: nat): nat {
    Sum(s.cores, CoreOwes(i)) + Sum(s.ready, Owes(i))
  }

  /** Units less waiters. */
  function Balance(s: State, i: nat): int {
    if i < |s.sems| then s.sems[i].sem.count - |s.sems[i].sem.waiting| else 0
  }

  function Worth(s: State, i: nat): int {
    Balance(s, i) + Due(s, i) + Sum(s.sems, SlotOwes(i))
  }

  // ---- The parts of a step ----

  lemma UpWorth(s: State, i: nat, j: nat)
    requires i < |s.sems|
    ensures Worth(UpOn(s, i), j) == Worth(s, j) + Is(i, j)
  {
    var t := s.sems[i];
    SumSet(s.sems, SlotOwes(j), i, t.(sem := S.Up(t.sem)));
    if t.sem.waiting != [] {
      SumAdd(s.ready, Owes(j), t.sem.waiting[0]);
    } else {
      assert s.ready + [] == s.ready;
    }
  }

  lemma DownWorth(s: State, i: nat, e: Event, j: nat)
    requires i < |s.sems|
    ensures Worth(DownWith(s, i, e), j) == Worth(s, j) - Is(i, j) + Owes(j)(e)
  {
    var t := s.sems[i];
    SumSet(s.sems, SlotOwes(j), i, t.(sem := S.Down(t.sem, e).0));
    if t.sem.count > 0 {
      SumAdd(s.ready, Owes(j), e);
    } else {
      SumAdd(t.sem.waiting, Owes(j), e);
      assert s.ready + [] == s.ready;
    }
  }

  lemma CoreWorth(s: State, c: nat, k: Core, j: nat)
    requires c < |s.cores|
    ensures Worth(SetCore(s, c, k), j) == Worth(s, j) - CoreOwes(j)(s.cores[c]) + CoreOwes(j)(k)
  {
    SumSet(s.cores, CoreOwes(j), c, k);
  }

  lemma BlockWorth(s: State, c: nat, i: nat, e: Event, j: nat)
    requires c < |s.cores| && s.cores[c].User? && i < |s.sems|
    ensures Worth(Block(s, c, i, e), j) == Worth(s, j) - Is(i, j) + Owes(j)(e)
  {
    DownWorth(s, i, e, j);
    CoreWorth(DownWith(s, i, e), c, Idle, j);
  }

  lemma ReadyWorth(s: State, e: Event, j: nat)
    ensures Worth(s.(ready := s.ready + [e]), j) == Worth(s, j) + Owes(j)(e)
  {
    SumAdd(s.ready, Owes(j), e);
  }

  lemma SemWorth(s: State, n: nat, user: bool, j: nat)
    ensures Worth(s.(sems := s.sems + [Slot(S.Sem(n, []), user)]), j) == Worth(s, j) + if j == |s.sems| then n else 0
  {
    SumAdd(s.sems, SlotOwes(j), Slot(S.Sem(n, []), user));
  }

  lemma ProcsWorth(s: State, procs: seq<Proc>, j: nat)
    ensures Worth(s.(procs := procs), j) == Worth(s, j)
  {
  }

  // ---- What each call is worth ----

  /** A semaphore is made with its units, a down takes one and an up gives one.  A pipe write takes a slot and
      gives a value, a pipe read the other way round.  A process gives its exit future one unit when it
      exits.  join takes that unit and gives it back, and comes to nothing. */
  function Credit(s: State, a: Action, i: nat): int {
    if !a.Sys? || a.c >= |s.cores| || !s.cores[a.c].User? || s.cores[a.c].pid >= |s.procs| then 0
    else
      match a.call
      case Down(j) => if Usable(s, j) then 0 - Is(j, i) else 0
      case Up(j) => if Usable(s, j) then Is(j, i) else 0
      case PipeWrite(empty, full) => if Usable(s, empty) && Usable(s, full) then Is(full, i) - Is(empty, i) else 0
      case PipeRead(empty, full) => if Usable(s, empty) && Usable(s, full) then Is(empty, i) - Is(full, i) else 0
      case Exit(_) => Is(s.procs[s.cores[a.c].pid].exit, i)
      case NewSem(n) => if i == |s.sems| then n else 0
      case _ => 0
  }

  lemma One(i: nat, j: nat)
    ensures multiset([i])[j] == Is(i, j)
  {
  }

  lemma CallWorth(s: State, c: nat, p: nat, call: Call, j: nat)
    requires Wf(s) && c < |s.cores| && s.cores[c] == User(p) && p < |s.procs| && Sys1(s, c, p, call).Some?
    ensures Worth(Sys1(s, c, p, call).value, j) == Worth(s, j) + Credit(s, Sys(c, call), j)
  {
    match call
    case Switch =>
      CoreWorth(s, c, Idle, j);
      ReadyWorth(SetCore(s, c, Idle), Event(p, [], false), j);
    case Down(i) => if Usable(s, i) { BlockWorth(s, c, i, Event(p, [], false), j); }
    case Up(i) => if Usable(s, i) { UpWorth(s, i, j); }
    case PipeWrite(empty, full) =>
      One(full, j);
      if Usable(s, empty) && Usable(s, full) { BlockWorth(s, c, empty, Event(p, [full], false), j); }
    case PipeRead(empty, full) =>
      One(empty, j);
      if Usable(s, empty) && Usable(s, full) { BlockWorth(s, c, full, Event(p, [empty], false), j); }
    case Join => JoinWorth(s, c, p, j);
    case Fork => ForkWorth(s, c, p, j);
    case Exit(v) => ExitWorth(s, c, p, v, j);
    case NewSem(n) => SemWorth(s, n, true, j);
  }

  lemma JoinWorth(s: State, c: nat, p: nat, j: nat)
    requires c < |s.cores| && s.cores[c] == User(p) && p < |s.procs| && Sys1(s, c, p, Join).Some?
    ensures Worth(Sys1(s, c, p, Join).value, j) == Worth(s, j)
  {
    var children := s.procs[p].children;
    if children != [] {
      var x := s.procs[children[|children| - 1]].exit;
      One(x, j);
      BlockWorth(s, c, x, Event(p, [x], true), j);
    }
  }

  lemma ForkWorth(s: State, c: nat, p: nat, j: nat)
    requires p < |s.procs|
    ensures Worth(Sys1(s, c, p, Fork).value, j) == Worth(s, j)
  {
    var e := Event(|s.procs|, [], false);
    SemWorth(s, 0, false, j);
    var s1 := s.(sems := s.sems + [Slot(S.Sem(0, []), false)]);
    ReadyWorth(s1, e, j);
    ProcsWorth(s1.(ready := s1.ready + [e]), Sys1(s, c, p, Fork).value.procs, j);
  }

  lemma ExitWorth(s: State, c: nat, p: nat, v: int, j: nat)
    requires Wf(s) && c < |s.cores| && s.cores[c] == User(p) && p < |s.procs|
    ensures Worth(Sys1(s, c, p, Exit(v)).value, j) == Worth(s, j) + Is(s.procs[p].exit, j)
  {
    assert FineProc(s, s.procs[p]);
    UpWorth(s, s.procs[p].exit, j);
    var s1 := UpOn(s, s.procs[p].exit);
    CoreWorth(s1, c, Idle, j);
    ProcsWorth(SetCore(s1, c, Idle), Sys1(s, c, p, Exit(v)).value.procs, j);
  }

  lemma DispatchWorth(s: State, c: nat, j: nat)
    requires Step(s, Dispatch(c)).Some?
    ensures Worth(Step(s, Dispatch(c)).value, j) == Worth(s, j)
  {
    CoreWorth(s, c, Handling(s.ready[0]), j);
  }

  lemma ContinueWorth(s: State, c: nat, j: nat)
    requires Wf(s) && Step(s, Continue(c)).Some?
    ensures Worth(Step(s, Continue(c)).value, j) == Worth(s, j)
  {
    var e := s.cores[c].e;
    if e.todo != [] {
      assert Occurs(s, e) && Fine(s, e);
      var i := e.todo[0];
      assert i in e.todo && e.todo == [i] + e.todo[1..];
      One(i, j);
      UpWorth(s, i, j);
      CoreWorth(UpOn(s, i), c, Handling(e.(todo := e.todo[1..])), j);
    } else {
      CoreWorth(s, c, User(e.pid), j);
      ProcsWorth(SetCore(s, c, User(e.pid)), Step(s, Continue(c)).value.procs, j);
    }
  }

  /** A step changes the worth of a semaphore by what the call is worth, and no other step changes it. */
  lemma StepWorth(s: State, a: Action, j: nat)
    requires Wf(s) && Step(s, a).Some?
    ensures Worth(Step(s, a).value, j) == Worth(s, j) + Credit(s, a, j)
  {
    match a
    case Sys(c, call) => CallWorth(s, c, s.cores[c].pid, call, j);
    case Dispatch(c) => DispatchWorth(s, c, j);
    case Continue(c) => ContinueWorth(s, c, j);
  }

  function Credits(s: State, acts: seq<Action>, i: nat): int
    decreases |acts|
  {
    if acts == [] || Step(s, acts[0]).None? then 0
    else Credit(s, acts[0], i) + Credits(Step(s, acts[0]).value, acts[1..], i)
  }

  lemma {:induction false} RunWorth(s: State, acts: seq<Action>, j: nat)
    requires OneToken(s) && Wf(s) && Tidy(s) && Run(s, acts).Some?
    ensures Worth(Run(s, acts).value, j) == Worth(s, j) + Credits(s, acts, j)
    decreases |acts|
  {
    if acts != [] {
      StepWorth(s, acts[0], j);
      StepKeeps(s, acts[0]);
      StepsProceed(s, acts[0]);
      TidyStep(s, acts[0]);
      RunWorth(Step(s, acts[0]).value, acts[1..], j);
    }
  }

  lemma BootWorth(n: nat, j: nat)
    ensures Worth(Boot(n), j) == 0
  {
    SumSame(Boot(n).cores, CoreOwes(j), 0);
    assert Sum([Event(0, [], false)], Owes(j)) == 0;
    assert Sum([Slot(S.Sem(0, []), false)], SlotOwes(j)) == 0;
  }

  /** In every run on any number of cores every semaphore is worth what its calls add up to. */
  lemma EveryWorth(n: nat, acts: seq<Action>, j: nat)
    requires Run(Boot(n), acts).Some?
    ensures Worth(Run(Boot(n), acts).value, j) == Credits(Boot(n), acts, j)
  {
    EveryRun(n, []);
    BootWorth(n, j);
    RunWorth(Boot(n), acts, j);
  }

  // ---- Exit futures ----

  /** The exit future of a process is worth one unit when it has exited, and none before. */
  ghost predicate FuturesOk(s: State) {
    forall q :: 0 <= q < |s.procs| ==> Worth(s, s.procs[q].exit) == if s.procs[q].live then 0 else 1
  }

  /** Nothing is owed to a semaphore that does not exist. */
  lemma NothingOwed(s: State, i: nat)
    requires Wf(s) && |s.sems| <= i
    ensures Worth(s, i) == 0
  {
    forall e | Occurs(s, e) ensures multiset(e.todo)[i] == 0 {
      assert Fine(s, e);
      assert i !in e.todo;
    }
    forall c | 0 <= c < |s.cores| ensures CoreOwes(i)(s.cores[c]) == 0 {
      if s.cores[c].Handling? { assert Occurs(s, s.cores[c].e); }
    }
    SumSame(s.cores, CoreOwes(i), 0);
    forall k | 0 <= k < |s.ready| ensures Owes(i)(s.ready[k]) == 0 {
      assert s.ready[k] in s.ready && Occurs(s, s.ready[k]);
    }
    SumSame(s.ready, Owes(i), 0);
    forall k | 0 <= k < |s.sems| ensures SlotOwes(i)(s.sems[k]) == 0 {
      forall l | 0 <= l < |s.sems[k].sem.waiting| ensures Owes(i)(s.sems[k].sem.waiting[l]) == 0 {
        assert s.sems[k].sem.waiting[l] in s.sems[k].sem.waiting && Occurs(s, s.sems[k].sem.waiting[l]);
      }
      SumSame(s.sems[k].sem.waiting, Owes(i), 0);
    }
    SumSame(s.sems, SlotOwes(i), 0);
  }

  /** Calls other than exit credit no exit future that is there. */
  lemma NoCredit(s: State, a: Action, i: nat)
    requires i < |s.sems| && !s.sems[i].user && !(a.Sys? && a.call.Exit?)
    ensures Credit(s, a, i) == 0
  {
  }

  /** Only exit ends a process, and its own. */
  lemma LivesStay(s: State, a: Action, q: nat)
    requires Step(s, a).Some? && q < |s.procs|
    ensures q < |Step(s, a).value.procs| && Step(s, a).value.procs[q].exit == s.procs[q].exit
    ensures Step(s, a).value.procs[q].live == (s.procs[q].live && !(a.Sys? && a.call.Exit? && s.cores[a.c].pid == q))
  {
  }

  lemma OldFuture(s: State, a: Action, q: nat)
    requires OneToken(s) && Wf(s) && J.ExitsOk(s) && Step(s, a).Some? && q < |s.procs|
    requires Worth(s, s.procs[q].exit) == if s.procs[q].live then 0 else 1
    ensures var s' := Step(s, a).value;
            && q < |s'.procs| && s'.procs[q].exit == s.procs[q].exit
            && Worth(s', s'.procs[q].exit) == if s'.procs[q].live then 0 else 1
  {
    assert J.ExitOk(s, q);
    LivesStay(s, a, q);
    StepWorth(s, a, s.procs[q].exit);
    if a.Sys? && a.call.Exit? {
      RunningIsNowhereElse(s, a.c, s.cores[a.c].pid);
    } else {
      NoCredit(s, a, s.procs[q].exit);
    }
  }

  /** A new process has a future of its own, worth nothing. */
  lemma NewFuture(s: State, a: Action, q: nat)
    requires Wf(s) && Step(s, a).Some? && |s.procs| <= q < |Step(s, a).value.procs|
    ensures var s' := Step(s, a).value;
            s'.procs[q].live && Worth(s', s'.procs[q].exit) == 0
  {
    assert a.Sys? && a.call == Fork;
    NothingOwed(s, |s.sems|);
    StepWorth(s, a, |s.sems|);
  }

  lemma FuturesStep(s: State, a: Action)
    requires OneToken(s) && Wf(s) && J.ExitsOk(s) && FuturesOk(s) && Step(s, a).Some?
    ensures FuturesOk(Step(s, a).value)
  {
    var s' := Step(s, a).value;
    forall q | 0 <= q < |s'.procs| ensures Worth(s', s'.procs[q].exit) == if s'.procs[q].live then 0 else 1 {
      if q < |s.procs| {
        OldFuture(s, a, q);
      } else {
        NewFuture(s, a, q);
      }
    }
  }

  lemma {:induction false} FuturesRun(s: State, acts: seq<Action>)
    requires OneToken(s) && Wf(s) && Tidy(s) && J.JoinInv(s) && FuturesOk(s) && Run(s, acts).Some?
    ensures FuturesOk(Run(s, acts).value) && J.JoinInv(Run(s, acts).value)
    decreases |acts|
  {
    if acts != [] {
      FuturesStep(s, acts[0]);
      J.StepKeeps(s, acts[0]);
      StepKeeps(s, acts[0]);
      StepsProceed(s, acts[0]);
      TidyStep(s, acts[0]);
      FuturesRun(Step(s, acts[0]).value, acts[1..]);
    }
  }

  /** Those who wait for an exit future owe it what they wait for. */
  lemma WaitersOwe(s: State, q: nat)
    requires J.JoinInv(s) && q < |s.procs|
    ensures s.procs[q].exit < |s.sems|
    ensures Sum(s.sems, SlotOwes(s.procs[q].exit)) == |s.sems[s.procs[q].exit].sem.waiting|
  {
    assert J.ExitOk(s, q);
    var i := s.procs[q].exit;
    forall k | 0 <= k < |s.sems| ensures SlotOwes(i)(s.sems[k]) == if k == i then |s.sems[i].sem.waiting| else 0 {
      var es := s.sems[k].sem.waiting;
      forall l | 0 <= l < |es| ensures Owes(i)(es[l]) == if k == i then 1 else 0 {
        assert J.WaitOk(s, k, es[l]);
        if s.sems[k].user {
          assert i !in es[l].todo;
        } else {
          One(k, i);
        }
      }
      SumSame(es, Owes(i), if k == i then 1 else 0);
    }
    SumOne(s.sems, SlotOwes(i), i);
  }

  /** In every run the one unit of an exited process is in its future or with one join that will hand it on,
      and a live process's future has none. */
  lemma Baton(n: nat, acts: seq<Action>, q: nat)
    requires Run(Boot(n), acts).Some? && q < |Run(Boot(n), acts).value.procs|
    ensures var s := Run(Boot(n), acts).value;
            var i := s.procs[q].exit;
            i < |s.sems| && s.sems[i].sem.count + Due(s, i) == if s.procs[q].live then 0 else 1
  {
    var s := Run(Boot(n), acts).value;
    EveryRun(n, []);
    J.BootJoins(n);
    BootWorth(n, 0);
    FuturesRun(Boot(n), acts);
    WaitersOwe(s, q);
  }

  // ---- Joins end ----

  /** No event is ready and none is being carried out. */
  ghost predicate Quiet(s: State) {
    s.ready == [] && forall c :: 0 <= c < |s.cores| ==> !s.cores[c].Handling?
  }

  /** When nothing is left to do, nobody waits for a process that has exited. */
  lemma NobodyWaits(n: nat, acts: seq<Action>, q: nat)
    requires Run(Boot(n), acts).Some? && Quiet(Run(Boot(n), acts).value)
    requires q < |Run(Boot(n), acts).value.procs| && !Run(Boot(n), acts).value.procs[q].live
    ensures var s := Run(Boot(n), acts).value;
            s.procs[q].exit < |s.sems| && s.sems[s.procs[q].exit].sem.waiting == []
  {
    var s := Run(Boot(n), acts).value;
    Baton(n, acts, q);
    EveryRun(n, acts);
    SumSame(s.cores, CoreOwes(s.procs[q].exit), 0);
  }

  /** What is left to do for an event that waits, is ready, or is being carried out. */
  function Waits(): Event -> nat {
    (e: Event) => |e.todo| + 3
  }

  function Stands(): Event -> nat {
    (e: Event) => |e.todo| + 2
  }

  function Runs(): Core -> nat {
    (k: Core) => if k.Handling? then |k.e.todo| + 1 else 0
  }

  function Slots(): Slot -> nat {
    (t: Slot) => Sum(t.sem.waiting, Waits())
  }

  function Work(s: State): nat {
    Sum(s.cores, Runs()) + Sum(s.ready, Stands()) + Sum(s.sems, Slots())
  }

  lemma UpWorks(s: State, i: nat)
    requires i < |s.sems|
    ensures Work(UpOn(s, i)) <= Work(s)
  {
    var t := s.sems[i];
    SumSet(s.sems, Slots(), i, t.(sem := S.Up(t.sem)));
    if t.sem.waiting != [] {
      SumAdd(s.ready, Stands(), t.sem.waiting[0]);
    } else {
      assert s.ready + [] == s.ready;
    }
  }

  /** Every step of the event loop leaves less to do. */
  lemma LoopWorks(s: State, a: Action)
    requires Wf(s) && !a.Sys? && Step(s, a).Some?
    ensures Work(Step(s, a).value) < Work(s)
  {
    match a
    case Dispatch(c) => SumSet(s.cores, Runs(), c, Handling(s.ready[0]));
    case Continue(c) =>
      var e := s.cores[c].e;
      if e.todo != [] {
        assert Occurs(s, e) && Fine(s, e);
        assert e.todo[0] in e.todo;
        UpWorks(s, e.todo[0]);
        SumSet(s.cores, Runs(), c, Handling(e.(todo := e.todo[1..])));
      } else {
        SumSet(s.cores, Runs(), c, User(e.pid));
      }
  }

  /** Steps of the event loop alone. */
  ghost predicate Loop(acts: seq<Action>) {
    forall k :: 0 <= k < |acts| ==> !acts[k].Sys?
  }

  lemma {:induction false} LoopBounded(s: State, acts: seq<Action>)
    requires OneToken(s) && Wf(s) && Run(s, acts).Some? && Loop(acts)
    ensures |acts| <= Work(s)
    decreases |acts|
  {
    if acts != [] {
      LoopWorks(s, acts[0]);
      StepKeeps(s, acts[0]);
      StepsProceed(s, acts[0]);
      LoopBounded(Step(s, acts[0]).value, acts[1..]);
    }
  }

  /** The event loop can do nothing more. */
  ghost predicate Stopped(s: State) {
    forall a: Action :: !a.Sys? ==> Step(s, a).None?
  }

  lemma StoppedIsQuiet(s: State, c: nat)
    requires OneToken(s) && Wf(s) && Stopped(s) && c < |s.cores| && s.cores[c] == Idle
    ensures Quiet(s)
  {
    StepsProceed(s, Dispatch(c));
    forall d: nat | d < |s.cores| ensures !s.cores[d].Handling? {
      StepsProceed(s, Continue(d));
    }
  }

  lemma {:induction false} RunOn(s: State, acts: seq<Action>, more: seq<Action>)
    requires Run(s, acts).Some?
    ensures Run(s, acts + more) == Run(Run(s, acts).value, more)
    decreases |acts|
  {
    if acts == [] {
      assert acts + more == more;
    } else {
      assert (acts + more)[1..] == acts[1..] + more;
      RunOn(Step(s, acts[0]).value, acts[1..], more);
    }
  }

  /** Left to itself it gets there. */
  lemma {:induction false} LoopStops(s: State) returns (more: seq<Action>)
    requires OneToken(s) && Wf(s)
    ensures Loop(more) && Run(s, more).Some? && Stopped(Run(s, more).value)
    decreases Work(s)
  {
    if Stopped(s) {
      more := [];
    } else {
      var a: Action :| !a.Sys? && Step(s, a).Some?;
      LoopWorks(s, a);
      StepKeeps(s, a);
      StepsProceed(s, a);
      var rest := LoopStops(Step(s, a).value);
      more := [a] + rest;
      assert more[1..] == rest;
    }
  }

  /** From any state of any run the event loop stops after finitely many steps.  Unless every core has got a
      process to run, all joins of exited processes have ended by then. */
  lemma JoinsEnd(n: nat, acts: seq<Action>, more: seq<Action>, c: nat, q: nat)
    requires Run(Boot(n), acts).Some? && Loop(more) && Run(Run(Boot(n), acts).value, more).Some?
    ensures |more| <= Work(Run(Boot(n), acts).value)
    ensures var s := Run(Run(Boot(n), acts).value, more).value;
            Stopped(s) && c < |s.cores| && s.cores[c] == Idle && q < |s.procs| && !s.procs[q].live ==>
              Quiet(s) && s.procs[q].exit < |s.sems| && s.sems[s.procs[q].exit].sem.waiting == []
  {
    EveryRun(n, acts);
    LoopBounded(Run(Boot(n), acts).value, more);
    RunOn(Boot(n), acts, more);
    EveryRun(n, acts + more);
    var s := Run(Boot(n), acts + more).value;
    if Stopped(s) && c < |s.cores| && s.cores[c] == Idle && q < |s.procs| && !s.procs[q].live {
      StoppedIsQuiet(s, c);
      NobodyWaits(n, acts + more, q);
    }
  }

  // ---- Events run in the order in which they became ready ----

  function Dispatches(acts: seq<Action>): nat {
    if acts == [] then 0 else (if acts[0].Dispatch? then 1 else 0) + Dispatches(acts[1..])
  }

  lemma ReadyStep(s: State, a: Action, k: nat)
    requires Step(s, a).Some? && k < |s.ready|
    ensures var ready, k' := Step(s, a).value.ready, if a.Dispatch? then k - 1 else k;
            0 <= k' ==> k' < |ready| && ready[k'] == s.ready[k]
  {
  }

  /** The event at place k of the ready queue is taken after exactly k others. */
  lemma {:induction false} InOrder(s: State, acts: seq<Action>, k: nat, c: nat)
    requires k < |s.ready| && Dispatches(acts) == k && Run(s, acts).Some?
    requires Step(Run(s, acts).value, Dispatch(c)).Some?
    ensures var s' := Step(Run(s, acts).value, Dispatch(c)).value;
            c < |s'.cores| && s'.cores[c] == Handling(s.ready[k])
    decreases |acts|
  {
    if acts != [] {
      ReadyStep(s, acts[0], k);
      InOrder(Step(s, acts[0]).value, acts[1..], if acts[0].Dispatch? then k - 1 else k, c);
    }
  }
}

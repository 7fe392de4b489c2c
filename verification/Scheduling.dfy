/** Processes on any number of cores: every blocking call hands the process to exactly one place.

    A process is on a core, or it is held by one event that will resume it.  The event is in the ready
    queue, on the waiting list of one semaphore, or being carried out by a core.  User semaphores, the
    two semaphores of a pipe and the one inside an exit future all live in one table.
 */
module Scheduling {
  import opened Wrappers
  import S = Semaphores

  /** What an event does before it resumes process pid: `todo` lists the semaphores it still has to up,
      `join` says that it then takes the last child off pid's stack. */
  datatype Event = Event(pid: nat, todo: seq<nat>, join: bool)

  datatype Core = Idle | User(pid: nat) | Handling(e: Event)

  /** `user` tells the semaphores of programs and pipes from those inside exit futures. */
  datatype Slot = Slot(sem: S.Sem<Event>, user: bool)

  /** A process: whether it has not exited yet, the semaphore of its exit future and the value set in it, its
      child stack, and the value its last join of a child returned. */
  datatype Proc = Proc(live: bool, exit: nat, status: int, children: seq<nat>, joined: int)

  datatype State = State(cores: seq<Core>, ready: seq<Event>, sems: seq<Slot>, procs: seq<Proc>)

  datatype Call =
    | Switch                              // yield, timer interrupt, sigreturn
    | Down(sem: nat)
    | Up(sem: nat)
    | PipeWrite(empty: nat, full: nat)
    | PipeRead(empty: nat, full: nat)
    | Join
    | Fork
    | Exit(status: int)
    | NewSem(n: nat)

  /** Core c's process makes a call, or an idle core takes the next event, or a core goes on with one. */
  datatype Action = Sys(c: nat, call: Call) | Dispatch(c: nat) | Continue(c: nat)

  function SetCore(s: State, c: nat, k: Core): State {
    if c < |s.cores| then s.(cores := s.cores[c := k]) else s
  }

  /** down with an event: to the ready queue or to the waiting list. */
  function DownWith(s: State, i: nat, e: Event): State {
    if i >= |s.sems| then s
    else
      var (sem, now) := S.Down(s.sems[i].sem, e);
      s.(sems := s.sems[i := s.sems[i].(sem := sem)], ready := s.ready + if now then [e] else [])
  }

  /** up: the oldest waiter becomes ready, or the unit is kept. */
  function UpOn(s: State, i: nat): State {
    if i >= |s.sems| then s
    else
      var sem := s.sems[i].sem;
      s.(sems := s.sems[i := s.sems[i].(sem := S.Up(sem))],
         ready := s.ready + if sem.waiting != [] then [sem.waiting[0]] else [])
  }

  /** The process of core c leaves the core with event e, which waits for semaphore i. */
  function Block(s: State, c: nat, i: nat, e: Event): State {
    SetCore(DownWith(s, i, e), c, Idle)
  }

  /** A semaphore that a program may name. */
  predicate Usable(s: State, i: nat) {
    i < |s.sems| && s.sems[i].user
  }

  /** A call of process p on core c; a bad semaphore or pipe is refused with -1. */
  function Sys1(s: State, c: nat, p: nat, call: Call): Option<State>
    requires p < |s.procs|
  {
    match call
    case Switch => Some(SetCore(s, c, Idle).(ready := s.ready + [Event(p, [], false)]))
    case Down(i) => if Usable(s, i) then Some(Block(s, c, i, Event(p, [], false))) else Some(s)
    case Up(i) => if Usable(s, i) then Some(UpOn(s, i)) else Some(s)
    case PipeWrite(empty, full) =>
      if Usable(s, empty) && Usable(s, full) then Some(Block(s, c, empty, Event(p, [full], false))) else Some(s)
    case PipeRead(empty, full) =>
      if Usable(s, empty) && Usable(s, full) then Some(Block(s, c, full, Event(p, [empty], false))) else Some(s)
    case Join =>
      var children := s.procs[p].children;
      if children == [] then Some(s)
      else
        var q := children[|children| - 1];
        if q < |s.procs| && s.procs[q].exit < |s.sems| then
          Some(Block(s, c, s.procs[q].exit, Event(p, [s.procs[q].exit], true)))
        else None
    case Fork =>
      var q := |s.procs|;
      Some(s.(procs := s.procs[p := s.procs[p].(children := s.procs[p].children + [q])]
                       + [Proc(true, |s.sems|, 0, [], 0)],
              sems := s.sems + [Slot(S.Sem(0, []), false)],
              ready := s.ready + [Event(q, [], false)]))
    case Exit(status) =>
      Some(SetCore(UpOn(s, s.procs[p].exit), c, Idle).(
           procs := s.procs[p := s.procs[p].(live := false, status := status)]))
    case NewSem(n) => Some(s.(sems := s.sems + [Slot(S.Sem(n, []), true)]))
  }

  function Step(s: State, a: Action): Option<State> {
    match a
    case Sys(c, call) =>
      if c < |s.cores| && s.cores[c].User? && s.cores[c].pid < |s.procs| then Sys1(s, c, s.cores[c].pid, call) else None
    case Dispatch(c) =>
      if c < |s.cores| && s.cores[c].Idle? && s.ready != [] then
        Some(SetCore(s, c, Handling(s.ready[0])).(ready := s.ready[1..]))
      else None
    case Continue(c) =>
      if c < |s.cores| && s.cores[c].Handling? && s.cores[c].e.pid < |s.procs| then
        var e := s.cores[c].e;
        if e.todo != [] then Some(SetCore(UpOn(s, e.todo[0]), c, Handling(e.(todo := e.todo[1..]))))
        else if e.join then
          var children := s.procs[e.pid].children;
          if children == [] || children[|children| - 1] >= |s.procs| then None
          else
            var value := s.procs[children[|children| - 1]].status;
            Some(SetCore(s, c, User(e.pid)).(
                 procs := s.procs[e.pid := s.procs[e.pid].(children := children[..|children| - 1], joined := value)]))
        else Some(SetCore(s, c, User(e.pid)))
      else None
  }

  // ---- Counting the places that hold a process ----

  function OnCore(k: Core, p: nat): nat {
    if (k.User? && k.pid == p) || (k.Handling? && k.e.pid == p) then 1 else 0
  }

  function OnCores(cores: seq<Core>, p: nat): nat {
    if cores == [] then 0 else OnCore(cores[0], p) + OnCores(cores[1..], p)
  }

  function InEvents(es: seq<Event>, p: nat): nat {
    if es == [] then 0 else (if es[0].pid == p then 1 else 0) + InEvents(es[1..], p)
  }

  function InSems(sems: seq<Slot>, p: nat): nat {
    if sems == [] then 0 else InEvents(sems[0].sem.waiting, p) + InSems(sems[1..], p)
  }

  function Held(s: State, p: nat): nat {
    OnCores(s.cores, p) + InEvents(s.ready, p) + InSems(s.sems, p)
  }

  function Alive(s: State, p: nat): nat {
    if p < |s.procs| && s.procs[p].live then 1 else 0
  }

  lemma {:induction false} EventsAdd(es: seq<Event>, e: Event, p: nat)
    ensures InEvents(es + [e], p) == InEvents(es, p) + if e.pid == p then 1 else 0
  {
    if es == [] {
      assert es + [e] == [e];
    } else {
      assert (es + [e])[1..] == es[1..] + [e];
      EventsAdd(es[1..], e, p);
    }
  }

  lemma {:induction false} CoresSet(cores: seq<Core>, c: nat, k: Core, p: nat)
    requires c < |cores|
    ensures OnCores(cores[c := k], p) + OnCore(cores[c], p) == OnCores(cores, p) + OnCore(k, p)
  {
    if c == 0 {
      assert cores[c := k][1..] == cores[1..];
    } else {
      assert cores[c := k][1..] == cores[1..][c - 1 := k];
      CoresSet(cores[1..], c - 1, k, p);
    }
  }

  lemma {:induction false} SemsSet(sems: seq<Slot>, i: nat, t: Slot, p: nat)
    requires i < |sems|
    ensures InSems(sems[i := t], p) + InEvents(sems[i].sem.waiting, p) == InSems(sems, p) + InEvents(t.sem.waiting, p)
  {
    if i == 0 {
      assert sems[i := t][1..] == sems[1..];
    } else {
      assert sems[i := t][1..] == sems[1..][i - 1 := t];
      SemsSet(sems[1..], i - 1, t, p);
    }
  }

  lemma {:induction false} SemsAdd(sems: seq<Slot>, t: Slot, p: nat)
    requires t.sem.waiting == []
    ensures InSems(sems + [t], p) == InSems(sems, p)
  {
    if sems == [] {
      assert sems + [t] == [t];
    } else {
      assert (sems + [t])[1..] == sems[1..] + [t];
      SemsAdd(sems[1..], t, p);
    }
  }

  // ---- What each part of a step does to the count ----

  function Is(p: nat, q: nat): nat {
    if p == q then 1 else 0
  }

  lemma DownHolds(s: State, i: nat, e: Event, p: nat)
    requires i < |s.sems|
    ensures Held(DownWith(s, i, e), p) == Held(s, p) + Is(e.pid, p)
  {
    var t := s.sems[i];
    var t' := t.(sem := S.Down(t.sem, e).0);
    SemsSet(s.sems, i, t', p);
    if t.sem.count > 0 {
      EventsAdd(s.ready, e, p);
    } else {
      EventsAdd(t.sem.waiting, e, p);
      assert s.ready + [] == s.ready;
    }
  }

  lemma UpHolds(s: State, i: nat, p: nat)
    ensures Held(UpOn(s, i), p) == Held(s, p) && UpOn(s, i).cores == s.cores && UpOn(s, i).procs == s.procs
  {
    if i < |s.sems| {
      var t := s.sems[i];
      SemsSet(s.sems, i, t.(sem := S.Up(t.sem)), p);
      if t.sem.waiting != [] {
        EventsAdd(s.ready, t.sem.waiting[0], p);
      } else {
        assert s.ready + [] == s.ready;
      }
    }
  }

  lemma CoreHolds(s: State, c: nat, k: Core, p: nat)
    requires c < |s.cores|
    ensures Held(SetCore(s, c, k), p) + OnCore(s.cores[c], p) == Held(s, p) + OnCore(k, p)
  {
    CoresSet(s.cores, c, k, p);
  }

  lemma BlockHolds(s: State, c: nat, q: nat, i: nat, e: Event, p: nat)
    requires c < |s.cores| && s.cores[c] == User(q) && i < |s.sems| && e.pid == q
    ensures Held(Block(s, c, i, e), p) == Held(s, p)
  {
    DownHolds(s, i, e, p);
    CoreHolds(DownWith(s, i, e), c, Idle, p);
  }

  lemma SwitchHolds(s: State, c: nat, q: nat, p: nat)
    requires c < |s.cores| && s.cores[c] == User(q)
    ensures Held(SetCore(s, c, Idle).(ready := s.ready + [Event(q, [], false)]), p) == Held(s, p)
  {
    CoresSet(s.cores, c, Idle, p);
    EventsAdd(s.ready, Event(q, [], false), p);
  }

  lemma ForkHolds(s: State, q: nat, s': State, p: nat)
    requires s'.cores == s.cores && s'.sems == s.sems + [Slot(S.Sem(0, []), false)]
    requires s'.ready == s.ready + [Event(q, [], false)]
    ensures Held(s', p) == Held(s, p) + Is(q, p)
  {
    SemsAdd(s.sems, Slot(S.Sem(0, []), false), p);
    EventsAdd(s.ready, Event(q, [], false), p);
  }

  lemma NewSemHolds(s: State, n: nat, p: nat)
    ensures Held(s.(sems := s.sems + [Slot(S.Sem(n, []), true)]), p) == Held(s, p)
  {
    SemsAdd(s.sems, Slot(S.Sem(n, []), true), p);
  }

  lemma ExitHolds(s: State, c: nat, q: nat, i: nat, p: nat)
    requires c < |s.cores| && s.cores[c] == User(q)
    ensures Held(SetCore(UpOn(s, i), c, Idle), p) + Is(q, p) == Held(s, p)
  {
    UpHolds(s, i, p);
    CoreHolds(UpOn(s, i), c, Idle, p);
  }

  lemma DispatchHolds(s: State, c: nat, p: nat)
    requires c < |s.cores| && s.cores[c] == Idle && s.ready != []
    ensures Held(SetCore(s, c, Handling(s.ready[0])).(ready := s.ready[1..]), p) == Held(s, p)
  {
    CoresSet(s.cores, c, Handling(s.ready[0]), p);
  }

  lemma ContinueHolds(s: State, c: nat, i: nat, k: Core, p: nat)
    requires c < |s.cores| && s.cores[c].Handling?
    requires (k.User? && k.pid == s.cores[c].e.pid) || (k.Handling? && k.e.pid == s.cores[c].e.pid)
    ensures Held(SetCore(UpOn(s, i), c, k), p) == Held(s, p) && Held(SetCore(s, c, k), p) == Held(s, p)
  {
    UpHolds(s, i, p);
    CoreHolds(UpOn(s, i), c, k, p);
    CoreHolds(s, c, k, p);
  }

  // ---- Steps and runs ----

  /** Each live process is held in exactly one place, and an exited one in none. */
  ghost predicate OneToken(s: State) {
    forall p: nat :: Held(s, p) == Alive(s, p)
  }

  lemma Sys1Keeps(s: State, c: nat, q: nat, call: Call, p: nat)
    requires OneToken(s) && c < |s.cores| && s.cores[c] == User(q) && q < |s.procs| && Sys1(s, c, q, call).Some?
    ensures Held(Sys1(s, c, q, call).value, p) == Alive(Sys1(s, c, q, call).value, p)
  {
    assert Held(s, p) == Alive(s, p);
    match call
    case Switch => SwitchHolds(s, c, q, p);
    case Down(i) => if Usable(s, i) { BlockHolds(s, c, q, i, Event(q, [], false), p); }
    case Up(i) => UpHolds(s, i, p);
    case PipeWrite(empty, full) =>
      if Usable(s, empty) && Usable(s, full) { BlockHolds(s, c, q, empty, Event(q, [full], false), p); }
    case PipeRead(empty, full) =>
      if Usable(s, empty) && Usable(s, full) { BlockHolds(s, c, q, full, Event(q, [empty], false), p); }
    case Join =>
      var children := s.procs[q].children;
      if children != [] {
        var x := s.procs[children[|children| - 1]].exit;
        BlockHolds(s, c, q, x, Event(q, [x], true), p);
      }
    case Fork => ForkHolds(s, |s.procs|, Sys1(s, c, q, call).value, p);
    case Exit(v) => ExitStep(s, c, q, v, p);
    case NewSem(n) => NewSemHolds(s, n, p);
  }

  lemma ExitStep(s: State, c: nat, q: nat, v: int, p: nat)
    requires OneToken(s) && c < |s.cores| && s.cores[c] == User(q) && q < |s.procs|
    ensures Held(Sys1(s, c, q, Exit(v)).value, p) == Alive(Sys1(s, c, q, Exit(v)).value, p)
  {
    ExitHolds(s, c, q, s.procs[q].exit, p);
    UpHolds(s, s.procs[q].exit, p);
    OnCoreHeld(s, c, q);
  }

  /** A process on a core is held, so it is alive. */
  lemma OnCoreHeld(s: State, c: nat, q: nat)
    requires c < |s.cores| && s.cores[c] == User(q)
    ensures Held(s, q) >= 1
  {
    CoreHolds(s, c, Idle, q);
  }

  /** Every step keeps one token for each live process. */
  lemma StepKeeps(s: State, a: Action)
    requires OneToken(s) && Step(s, a).Some?
    ensures OneToken(Step(s, a).value)
  {
    var s' := Step(s, a).value;
    forall p: nat ensures Held(s', p) == Alive(s', p) {
      match a
      case Sys(c, call) => Sys1Keeps(s, c, s.cores[c].pid, call, p);
      case Dispatch(c) => DispatchHolds(s, c, p);
      case Continue(c) => ContinueStep(s, c, p);
    }
  }

  lemma ContinueStep(s: State, c: nat, p: nat)
    requires OneToken(s) && Step(s, Continue(c)).Some?
    ensures Held(Step(s, Continue(c)).value, p) == Alive(Step(s, Continue(c)).value, p)
  {
    var e := s.cores[c].e;
    if e.todo != [] {
      ContinueHolds(s, c, e.todo[0], Handling(e.(todo := e.todo[1..])), p);
      UpHolds(s, e.todo[0], p);
    } else {
      ContinueHolds(s, c, 0, User(e.pid), p);
    }
  }

  // ---- What one token means ----

  /** No process runs on two cores at once. */
  lemma NotOnTwoCores(s: State, c: nat, d: nat, p: nat)
    requires OneToken(s) && c < |s.cores| && d < |s.cores| && s.cores[c] == User(p) && OnCore(s.cores[d], p) == 1
    ensures c == d
  {
    if c != d {
      var s1 := SetCore(s, c, Idle);
      CoreHolds(s, c, Idle, p);
      CoreHolds(s1, d, Idle, p);
    }
  }

  /** A process on a core is in no queue, and it has not exited. */
  lemma RunningIsNowhereElse(s: State, c: nat, p: nat)
    requires OneToken(s) && c < |s.cores| && s.cores[c] == User(p)
    ensures InEvents(s.ready, p) == 0 && InSems(s.sems, p) == 0 && p < |s.procs| && s.procs[p].live
  {
    CoresSet(s.cores, c, Idle, p);
    assert Held(s, p) == Alive(s, p);
  }

  /** A live process is never lost: it is on a core, ready, or waiting for a semaphore. */
  lemma NeverLost(s: State, p: nat)
    requires OneToken(s) && p < |s.procs| && s.procs[p].live
    ensures || (exists c :: 0 <= c < |s.cores| && OnCore(s.cores[c], p) == 1)
            || (exists k :: 0 <= k < |s.ready| && s.ready[k].pid == p)
            || (exists i :: 0 <= i < |s.sems| && InEvents(s.sems[i].sem.waiting, p) > 0)
  {
    assert Held(s, p) == 1;
    if OnCores(s.cores, p) > 0 {
      var c := FindCore(s.cores, p);
    } else if InEvents(s.ready, p) > 0 {
      var k := FindEvent(s.ready, p);
    } else {
      var i := FindSem(s.sems, p);
    }
  }

  lemma {:induction false} FindCore(cores: seq<Core>, p: nat) returns (c: nat)
    requires OnCores(cores, p) > 0
    ensures c < |cores| && OnCore(cores[c], p) == 1
  {
    if OnCore(cores[0], p) == 1 {
      c := 0;
    } else {
      var d := FindCore(cores[1..], p);
      c := d + 1;
    }
  }

  lemma {:induction false} FindEvent(es: seq<Event>, p: nat) returns (k: nat)
    requires InEvents(es, p) > 0
    ensures k < |es| && es[k].pid == p
  {
    if es[0].pid == p {
      k := 0;
    } else {
      var l := FindEvent(es[1..], p);
      k := l + 1;
    }
  }

  lemma {:induction false} FindSem(sems: seq<Slot>, p: nat) returns (i: nat)
    requires InSems(sems, p) > 0
    ensures i < |sems| && InEvents(sems[i].sem.waiting, p) > 0
  {
    if InEvents(sems[0].sem.waiting, p) > 0 {
      i := 0;
    } else {
      var j := FindSem(sems[1..], p);
      i := j + 1;
    }
  }

  /** No event names a process that has exited: it is never resumed again. */
  lemma ExitedIsGone(s: State, p: nat)
    requires OneToken(s) && !(p < |s.procs| && s.procs[p].live)
    ensures forall c :: 0 <= c < |s.cores| ==> OnCore(s.cores[c], p) == 0
    ensures forall k :: 0 <= k < |s.ready| ==> s.ready[k].pid != p
    ensures forall i :: 0 <= i < |s.sems| ==> InEvents(s.sems[i].sem.waiting, p) == 0
  {
    assert Held(s, p) == 0;
    forall c: nat | c < |s.cores| ensures OnCore(s.cores[c], p) == 0 {
      CoresSet(s.cores, c, Idle, p);
    }
    forall k: nat | k < |s.ready| ensures s.ready[k].pid != p {
      if s.ready[k].pid == p { EventCounts(s.ready, k, p); }
    }
    forall i: nat | i < |s.sems| ensures InEvents(s.sems[i].sem.waiting, p) == 0 {
      SemsSet(s.sems, i, Slot(S.Sem(0, []), false), p);
    }
  }

  lemma {:induction false} EventCounts(es: seq<Event>, k: nat, p: nat)
    requires k < |es| && es[k].pid == p
    ensures InEvents(es, p) > 0
  {
    if k > 0 {
      EventCounts(es[1..], k - 1, p);
    }
  }

  // ---- Nothing a core does goes wrong ----

  ghost predicate Occurs(s: State, e: Event) {
    || (exists c :: 0 <= c < |s.cores| && s.cores[c] == Handling(e))
    || (exists k :: 0 <= k < |s.ready| && s.ready[k] == e)
    || (exists i :: 0 <= i < |s.sems| && e in s.sems[i].sem.waiting)
  }

  /** The event names semaphores that exist, and a process with a child to take when it joins. */
  ghost predicate Fine(s: State, e: Event) {
    && e.pid < |s.procs| && (e.join ==> s.procs[e.pid].children != [])
    && (forall t :: t in e.todo ==> t < |s.sems|)
  }

  ghost predicate FineProc(s: State, q: Proc) {
    q.exit < |s.sems| && forall k :: 0 <= k < |q.children| ==> q.children[k] < |s.procs|
  }

  ghost predicate Wf(s: State) {
    && (forall q :: 0 <= q < |s.procs| ==> FineProc(s, s.procs[q]))
    && (forall e :: Occurs(s, e) ==> Fine(s, e))
  }

  lemma OccursDown(s: State, i: nat, e: Event, x: Event)
    requires Occurs(DownWith(s, i, e), x)
    ensures Occurs(s, x) || x == e
  {
  }

  lemma OccursUp(s: State, i: nat, x: Event)
    requires Occurs(UpOn(s, i), x)
    ensures Occurs(s, x)
  {
    if i < |s.sems| && s.sems[i].sem.waiting != [] {
      assert s.sems[i].sem.waiting[0] in s.sems[i].sem.waiting;
    }
  }

  lemma OccursCore(s: State, c: nat, k: Core, x: Event)
    requires Occurs(SetCore(s, c, k), x)
    ensures Occurs(s, x) || k == Handling(x)
  {
  }

  /** No event anywhere names a process that is on a core. */
  lemma RunningHasNoEvent(s: State, c: nat, p: nat, x: Event)
    requires OneToken(s) && c < |s.cores| && s.cores[c] == User(p) && Occurs(s, x)
    ensures x.pid != p
  {
    if x.pid == p {
      RunningIsNowhereElse(s, c, p);
      if d :| 0 <= d < |s.cores| && s.cores[d] == Handling(x) {
        NotOnTwoCores(s, c, d, p);
      } else if k :| 0 <= k < |s.ready| && s.ready[k] == x {
        EventCounts(s.ready, k, p);
      } else {
        var i :| 0 <= i < |s.sems| && x in s.sems[i].sem.waiting;
        var k :| 0 <= k < |s.sems[i].sem.waiting| && s.sems[i].sem.waiting[k] == x;
        EventCounts(s.sems[i].sem.waiting, k, p);
        SemsSet(s.sems, i, Slot(S.Sem(0, []), false), p);
      }
    }
  }

  lemma BlockWf(s: State, c: nat, i: nat, e: Event)
    requires Wf(s) && i < |s.sems| && Fine(s, e)
    ensures Wf(Block(s, c, i, e))
  {
    var s' := Block(s, c, i, e);
    forall x | Occurs(s', x) ensures Fine(s', x) {
      OccursCore(DownWith(s, i, e), c, Idle, x);
      OccursDown(s, i, e, x);
    }
    forall q | 0 <= q < |s'.procs| ensures FineProc(s', s'.procs[q]) {
      assert FineProc(s, s.procs[q]);
    }
  }

  /** The processes may gain children and the tables may grow. */
  ghost predicate Grows(s: State, s': State) {
    && |s.procs| <= |s'.procs| && |s.sems| <= |s'.sems|
    && (forall p :: 0 <= p < |s.procs| && s.procs[p].children != [] ==> s'.procs[p].children != [])
  }

  lemma GrowsWf(s: State, s': State)
    requires Wf(s) && Grows(s, s')
    requires forall q :: 0 <= q < |s'.procs| ==> FineProc(s', s'.procs[q])
    requires forall x :: Occurs(s', x) ==> Occurs(s, x) || Fine(s', x)
    ensures Wf(s')
  {
    forall x | Occurs(s', x) ensures Fine(s', x) {
      if Occurs(s, x) {
        assert Fine(s, x);
      }
    }
  }

  lemma SameProcs(s: State, s': State)
    requires Wf(s) && s'.procs == s.procs && |s'.sems| == |s.sems|
    ensures Grows(s, s') && forall q :: 0 <= q < |s'.procs| ==> FineProc(s', s'.procs[q])
  {
    forall q | 0 <= q < |s'.procs| ensures FineProc(s', s'.procs[q]) {
      assert FineProc(s, s.procs[q]);
    }
  }

  lemma ForkWf(s: State, c: nat, p: nat)
    requires Wf(s) && p < |s.procs|
    ensures Wf(Sys1(s, c, p, Fork).value)
  {
    var s' := Sys1(s, c, p, Fork).value;
    forall q | 0 <= q < |s'.procs| ensures FineProc(s', s'.procs[q]) {
      if q < |s.procs| { assert FineProc(s, s.procs[q]); }
    }
    assert s'.sems[|s.sems|].sem.waiting == [];
    GrowsWf(s, s');
  }

  lemma ExitWf(s: State, c: nat, p: nat, v: int)
    requires Wf(s) && p < |s.procs|
    ensures Wf(Sys1(s, c, p, Exit(v)).value)
  {
    var x := s.procs[p].exit;
    var s' := Sys1(s, c, p, Exit(v)).value;
    UpHolds(s, x, p);
    forall q | 0 <= q < |s'.procs| ensures FineProc(s', s'.procs[q]) {
      assert FineProc(s, s.procs[q]);
    }
    forall e | Occurs(s', e) ensures Occurs(s, e) {
      assert Occurs(SetCore(UpOn(s, x), c, Idle), e);
      OccursCore(UpOn(s, x), c, Idle, e);
      OccursUp(s, x, e);
    }
    GrowsWf(s, s');
  }

  lemma Sys1Wf(s: State, c: nat, p: nat, call: Call)
    requires Wf(s) && p < |s.procs|
    ensures Sys1(s, c, p, call).Some? && Wf(Sys1(s, c, p, call).value)
  {
    match call
    case Switch => SwitchWf(s, c, p);
    case Down(i) => if Usable(s, i) { BlockWf(s, c, i, Event(p, [], false)); }
    case Up(i) => UpWf(s, i);
    case PipeWrite(empty, full) =>
      if Usable(s, empty) && Usable(s, full) { BlockWf(s, c, empty, Event(p, [full], false)); }
    case PipeRead(empty, full) =>
      if Usable(s, empty) && Usable(s, full) { BlockWf(s, c, full, Event(p, [empty], false)); }
    case Join => JoinWf(s, c, p);
    case Fork => ForkWf(s, c, p);
    case Exit(v) => ExitWf(s, c, p, v);
    case NewSem(n) => NewSemWf(s, n);
  }

  lemma SwitchWf(s: State, c: nat, p: nat)
    requires Wf(s) && p < |s.procs|
    ensures Wf(Sys1(s, c, p, Switch).value)
  {
    var s' := Sys1(s, c, p, Switch).value;
    SameProcs(s, s');
    GrowsWf(s, s');
  }

  lemma UpWf(s: State, i: nat)
    requires Wf(s)
    ensures Wf(UpOn(s, i))
  {
    var s' := UpOn(s, i);
    SameProcs(s, s');
    forall x | Occurs(s', x) ensures Occurs(s, x) {
      OccursUp(s, i, x);
    }
    GrowsWf(s, s');
  }

  lemma JoinWf(s: State, c: nat, p: nat)
    requires Wf(s) && p < |s.procs|
    ensures Sys1(s, c, p, Join).Some? && Wf(Sys1(s, c, p, Join).value)
  {
    var children := s.procs[p].children;
    if children != [] {
      assert FineProc(s, s.procs[p]);
      var q := children[|children| - 1];
      assert FineProc(s, s.procs[q]);
      BlockWf(s, c, s.procs[q].exit, Event(p, [s.procs[q].exit], true));
    }
  }

  lemma NewSemWf(s: State, n: nat)
    requires Wf(s)
    ensures Wf(s.(sems := s.sems + [Slot(S.Sem(n, []), true)]))
  {
    var s' := s.(sems := s.sems + [Slot(S.Sem(n, []), true)]);
    forall q | 0 <= q < |s'.procs| ensures FineProc(s', s'.procs[q]) {
      assert FineProc(s, s.procs[q]);
    }
    assert s'.sems[|s.sems|].sem.waiting == [];
    GrowsWf(s, s');
  }

  lemma DispatchWf(s: State, c: nat)
    requires Wf(s) && Step(s, Dispatch(c)).Some?
    ensures Wf(Step(s, Dispatch(c)).value)
  {
    var s' := Step(s, Dispatch(c)).value;
    SameProcs(s, s');
    forall x | Occurs(s', x) ensures Occurs(s, x) {
      assert Occurs(SetCore(s, c, Handling(s.ready[0])), x);
      OccursCore(s, c, Handling(s.ready[0]), x);
    }
    GrowsWf(s, s');
  }

  lemma ContinueWf(s: State, c: nat)
    requires OneToken(s) && Wf(s) && c < |s.cores| && s.cores[c].Handling?
    ensures Step(s, Continue(c)).Some? && Wf(Step(s, Continue(c)).value)
  {
    var e := s.cores[c].e;
    assert Occurs(s, e) && Fine(s, e);
    assert FineProc(s, s.procs[e.pid]);
    if e.todo != [] {
      TodoWf(s, c, e);
    } else if e.join {
      JoinedWf(s, c, e);
    } else {
      var s' := SetCore(s, c, User(e.pid));
      SameProcs(s, s');
      GrowsWf(s, s');
    }
  }

  lemma TodoWf(s: State, c: nat, e: Event)
    requires Wf(s) && c < |s.cores| && s.cores[c] == Handling(e) && Fine(s, e) && e.todo != []
    ensures Wf(SetCore(UpOn(s, e.todo[0]), c, Handling(e.(todo := e.todo[1..]))))
  {
    var e' := e.(todo := e.todo[1..]);
    var s1 := UpOn(s, e.todo[0]);
    var s' := SetCore(s1, c, Handling(e'));
    UpWf(s, e.todo[0]);
    SameProcs(s1, s');
    assert Fine(s', e') by {
      forall t | t in e'.todo ensures t < |s'.sems| {
        assert t in e.todo;
      }
    }
    forall x | Occurs(s', x) ensures Occurs(s1, x) || x == e' {
      OccursCore(s1, c, Handling(e'), x);
    }
    GrowsWf(s1, s');
  }

  /** Taking the child off the stack harms no other event: none names this process. */
  lemma JoinedWf(s: State, c: nat, e: Event)
    requires OneToken(s) && Wf(s) && c < |s.cores| && s.cores[c] == Handling(e) && Fine(s, e) && e.todo == [] && e.join
    requires Step(s, Continue(c)).Some?
    ensures Wf(Step(s, Continue(c)).value)
  {
    var s' := Step(s, Continue(c)).value;
    StepKeeps(s, Continue(c));
    forall q | 0 <= q < |s'.procs| ensures FineProc(s', s'.procs[q]) {
      assert FineProc(s, s.procs[q]);
    }
    forall x | Occurs(s', x) ensures Fine(s', x) {
      RunningHasNoEvent(s', c, e.pid, x);
      assert Occurs(SetCore(s, c, User(e.pid)), x);
      OccursCore(s, c, User(e.pid), x);
      assert Fine(s, x);
    }
  }

  /** A step is refused only when the core is not in the right state for it: a process on a core can
      always make its call, and a core can always go on with its event. */
  lemma StepsProceed(s: State, a: Action)
    requires OneToken(s) && Wf(s)
    ensures Step(s, a).Some? <==>
            (a.c < |s.cores| && match a
             case Sys(c, _) => s.cores[c].User?
             case Dispatch(c) => s.cores[c].Idle? && s.ready != []
             case Continue(c) => s.cores[c].Handling?)
    ensures Step(s, a).Some? ==> Wf(Step(s, a).value)
  {
    match a
    case Sys(c, call) =>
      if c < |s.cores| && s.cores[c].User? {
        RunningIsNowhereElse(s, c, s.cores[c].pid);
        Sys1Wf(s, c, s.cores[c].pid, call);
      }
    case Dispatch(c) => if Step(s, a).Some? { DispatchWf(s, c); }
    case Continue(c) => if c < |s.cores| && s.cores[c].Handling? { ContinueWf(s, c); }
  }

  /** The calls that a process comes back from at once: ups, forks and new semaphores, calls on semaphores that
      are not there, and a join without a child. */
  predicate AtOnce(s: State, p: nat, call: Call)
    requires p < |s.procs|
  {
    match call
    case Up(_) => true
    case Fork => true
    case NewSem(_) => true
    case Down(i) => !Usable(s, i)
    case PipeWrite(empty, full) => !Usable(s, empty) || !Usable(s, full)
    case PipeRead(empty, full) => !Usable(s, empty) || !Usable(s, full)
    case Join => s.procs[p].children == []
    case _ => false
  }

  /** After a call its core goes on with the process, or is free to take an event; other cores go on. */
  lemma CoreAfter(s: State, c: nat, call: Call)
    requires Step(s, Sys(c, call)).Some?
    ensures Step(s, Sys(c, call)).value.cores
            == s.cores[c := if AtOnce(s, s.cores[c].pid, call) then s.cores[c] else Idle]
  {
    assert s.cores[c := s.cores[c]] == s.cores;
  }

  /** Every semaphore with a unit left has no waiter, so the assertion in up never fails. */
  ghost predicate Tidy(s: State) {
    forall i :: 0 <= i < |s.sems| && s.sems[i].sem.count > 0 ==> s.sems[i].sem.waiting == []
  }

  lemma DownTidy(s: State, i: nat, e: Event)
    requires Tidy(s)
    ensures Tidy(DownWith(s, i, e))
  {
  }

  lemma UpTidy(s: State, i: nat)
    requires Tidy(s)
    ensures Tidy(UpOn(s, i))
  {
  }

  lemma Sys1Tidy(s: State, c: nat, p: nat, call: Call)
    requires Tidy(s) && p < |s.procs| && Sys1(s, c, p, call).Some?
    ensures Tidy(Sys1(s, c, p, call).value)
  {
    match call
    case Switch =>
    case Down(i) => DownTidy(s, i, Event(p, [], false));
    case Up(i) => UpTidy(s, i);
    case PipeWrite(empty, full) => DownTidy(s, empty, Event(p, [full], false));
    case PipeRead(empty, full) => DownTidy(s, full, Event(p, [empty], false));
    case Join =>
      var children := s.procs[p].children;
      if children != [] {
        var x := s.procs[children[|children| - 1]].exit;
        DownTidy(s, x, Event(p, [x], true));
      }
    case Fork =>
    case Exit(_) => UpTidy(s, s.procs[p].exit);
    case NewSem(n) =>
  }

  lemma TidyStep(s: State, a: Action)
    requires Tidy(s) && Step(s, a).Some?
    ensures Tidy(Step(s, a).value)
  {
    match a
    case Sys(c, call) => Sys1Tidy(s, c, s.cores[c].pid, call);
    case Dispatch(c) =>
    case Continue(c) => if s.cores[c].e.todo != [] { UpTidy(s, s.cores[c].e.todo[0]); }
  }

  // ---- Runs ----

  function Run(s: State, acts: seq<Action>): Option<State>
    decreases |acts|
  {
    if acts == [] then Some(s)
    else
      var s' :- Step(s, acts[0]);
      Run(s', acts[1..])
  }

  lemma {:induction false} RunKeeps(s: State, acts: seq<Action>)
    requires OneToken(s) && Wf(s) && Tidy(s) && Run(s, acts).Some?
    ensures var s' := Run(s, acts).value;
            OneToken(s') && Wf(s') && Tidy(s')
    decreases |acts|
  {
    if acts != [] {
      StepKeeps(s, acts[0]);
      StepsProceed(s, acts[0]);
      TidyStep(s, acts[0]);
      RunKeeps(Step(s, acts[0]).value, acts[1..]);
    }
  }

  /** The system as it starts: n idle cores and the first process about to run. */
  function Boot(n: nat): State {
    State(seq(n, _ => Idle), [Event(0, [], false)], [Slot(S.Sem(0, []), false)], [Proc(true, 0, 0, [], 0)])
  }

  lemma {:induction false} IdleHolds(cores: seq<Core>, p: nat)
    requires forall c :: 0 <= c < |cores| ==> cores[c] == Idle
    ensures OnCores(cores, p) == 0
  {
    if cores != [] {
      IdleHolds(cores[1..], p);
    }
  }

  /** In every state of every run on any number of cores. */
  lemma EveryRun(n: nat, acts: seq<Action>)
    requires Run(Boot(n), acts).Some?
    ensures var s := Run(Boot(n), acts).value;
            OneToken(s) && Wf(s) && Tidy(s)
  {
    forall p: nat ensures Held(Boot(n), p) == Alive(Boot(n), p) {
      IdleHolds(Boot(n).cores, p);
      assert InEvents([Event(0, [], false)], p) == Is(0, p);
      assert InSems([Slot(S.Sem(0, []), false)], p) == 0;
    }
    forall e | Occurs(Boot(n), e) ensures Fine(Boot(n), e) {
      assert e == Event(0, [], false);
    }
    RunKeeps(Boot(n), acts);
  }
}

/** join waits: a process that comes back from join has taken the child it waited for off its stack, and
    that child has exited. */
module Joining {
  import S = Semaphores
  import opened Scheduling

  /** The youngest child of p, which is the one that join waits for. */
  function Youngest(s: State, p: nat): nat
    requires p < |s.procs| && s.procs[p].children != []
  {
    var children := s.procs[p].children;
    children[|children| - 1]
  }

  /** A join event waits for the exit of its process's youngest child; others up only program semaphores. */
  ghost predicate JoinOk(s: State, e: Event) {
    && e.pid < |s.procs|
    && (e.join ==> && s.procs[e.pid].children != [] && Youngest(s, e.pid) < |s.procs|
                   && (e.todo == [] || e.todo == [s.procs[Youngest(s, e.pid)].exit]))
    && (!e.join ==> forall t :: t in e.todo ==> Usable(s, t))
  }

  /** A join event that has been granted: the child has exited. */
  ghost predicate GrantOk(s: State, e: Event) {
    JoinOk(s, e) && (e.join ==> !s.procs[Youngest(s, e.pid)].live)
  }

  /** Events wait for the semaphore of a future only to join. */
  ghost predicate WaitOk(s: State, i: nat, e: Event)
    requires i < |s.sems|
  {
    JoinOk(s, e) && (e.join <==> !s.sems[i].user) && (e.join ==> e.todo == [i])
  }

  /** A live process's exit future has not been set. */
  ghost predicate ExitOk(s: State, q: nat)
    requires q < |s.procs|
  {
    && s.procs[q].exit < |s.sems| && !s.sems[s.procs[q].exit].user
    && (s.procs[q].live ==> s.sems[s.procs[q].exit].sem.count == 0)
    && (forall k :: 0 <= k < |s.procs[q].children| ==> s.procs[q].children[k] < |s.procs|)
  }

  ghost predicate FrontOk(s: State) {
    && (forall c :: 0 <= c < |s.cores| && s.cores[c].Handling? ==> GrantOk(s, s.cores[c].e))
    && (forall k :: 0 <= k < |s.ready| ==> GrantOk(s, s.ready[k]))
  }

  ghost predicate WaitersOk(s: State) {
    forall i, k :: 0 <= i < |s.sems| && 0 <= k < |s.sems[i].sem.waiting| ==> WaitOk(s, i, s.sems[i].sem.waiting[k])
  }

  ghost predicate ExitsOk(s: State) {
    && (forall q :: 0 <= q < |s.procs| ==> ExitOk(s, q))
    && (forall q, r :: 0 <= q < r < |s.procs| ==> s.procs[q].exit != s.procs[r].exit)
  }

  ghost predicate JoinInv(s: State) {
    FrontOk(s) && WaitersOk(s) && ExitsOk(s)
  }

  // ---- Parts of a step ----

  /** Same processes and same kinds of semaphores: what is said of events stands. */
  ghost predicate SameTables(s: State, s': State) {
    s'.procs == s.procs && |s'.sems| == |s.sems| && forall i :: 0 <= i < |s.sems| ==> s'.sems[i].user == s.sems[i].user
  }

  lemma JoinOkStays(s: State, s': State, e: Event)
    requires SameTables(s, s')
    ensures JoinOk(s', e) == JoinOk(s, e) && GrantOk(s', e) == GrantOk(s, e)
  {
  }

  /** up on a program semaphore, or on that of a process that has exited. */
  lemma UpJoin(s: State, i: nat, q: nat)
    requires JoinInv(s) && i < |s.sems|
    requires (s.sems[i].user || (q < |s.procs| && s.procs[q].exit == i && !s.procs[q].live))
    ensures JoinInv(UpOn(s, i)) && SameTables(s, UpOn(s, i))
  {
    var s' := UpOn(s, i);
    if s.sems[i].sem.waiting != [] {
      var e := s.sems[i].sem.waiting[0];
      assert WaitOk(s, i, e);
      if e.join {
        assert s.procs[Youngest(s, e.pid)].exit == i;
      }
      assert GrantOk(s, e);
    }
    assert FrontOk(s') by { UpFront(s, i); }
    assert WaitersOk(s') by { UpWaiters(s, i); }
    assert ExitsOk(s') by { UpExits(s, i, q); }
  }

  lemma UpFront(s: State, i: nat)
    requires FrontOk(s) && i < |s.sems| && (s.sems[i].sem.waiting != [] ==> GrantOk(s, s.sems[i].sem.waiting[0]))
    ensures FrontOk(UpOn(s, i))
  {
    var s' := UpOn(s, i);
    forall e ensures GrantOk(s', e) == GrantOk(s, e) {
      JoinOkStays(s, s', e);
    }
  }

  lemma UpWaiters(s: State, i: nat)
    requires WaitersOk(s) && i < |s.sems|
    ensures WaitersOk(UpOn(s, i))
  {
    var s' := UpOn(s, i);
    forall j: nat, k | j < |s'.sems| && 0 <= k < |s'.sems[j].sem.waiting|
      ensures WaitOk(s', j, s'.sems[j].sem.waiting[k])
    {
      var l := if j == i then k + 1 else k;
      assert s'.sems[j].sem.waiting[k] == s.sems[j].sem.waiting[l];
      assert WaitOk(s, j, s.sems[j].sem.waiting[l]);
      JoinOkStays(s, s', s'.sems[j].sem.waiting[k]);
    }
  }

  lemma UpExits(s: State, i: nat, q: nat)
    requires ExitsOk(s) && i < |s.sems|
    requires (s.sems[i].user || (q < |s.procs| && s.procs[q].exit == i && !s.procs[q].live))
    ensures ExitsOk(UpOn(s, i))
  {
    var s' := UpOn(s, i);
    forall r | 0 <= r < |s'.procs| ensures ExitOk(s', r) {
      assert ExitOk(s, r);
    }
  }

  lemma CoreJoin(s: State, c: nat, k: Core)
    requires JoinInv(s) && (k.Handling? ==> GrantOk(s, k.e))
    ensures JoinInv(SetCore(s, c, k))
  {
    var s' := SetCore(s, c, k);
    forall e ensures GrantOk(s', e) == GrantOk(s, e) && JoinOk(s', e) == JoinOk(s, e) {
      JoinOkStays(s, s', e);
    }
    forall r | 0 <= r < |s'.procs| ensures ExitOk(s', r) {
      assert ExitOk(s, r);
    }
    forall j: nat, l | j < |s'.sems| && 0 <= l < |s'.sems[j].sem.waiting|
      ensures WaitOk(s', j, s'.sems[j].sem.waiting[l])
    {
      assert WaitOk(s, j, s.sems[j].sem.waiting[l]);
    }
  }

  lemma DownJoin(s: State, i: nat, e: Event)
    requires JoinInv(s) && i < |s.sems| && WaitOk(s, i, e)
    ensures JoinInv(DownWith(s, i, e))
  {
    var s' := DownWith(s, i, e);
    if s.sems[i].sem.count > 0 && e.join {
      assert ExitOk(s, Youngest(s, e.pid));
    }
    forall x ensures GrantOk(s', x) == GrantOk(s, x) && JoinOk(s', x) == JoinOk(s, x) {
      JoinOkStays(s, s', x);
    }
    assert FrontOk(s');
    assert WaitersOk(s') by { DownWaiters(s, i, e); }
    forall r | 0 <= r < |s'.procs| ensures ExitOk(s', r) {
      assert ExitOk(s, r);
    }
  }

  lemma DownWaiters(s: State, i: nat, e: Event)
    requires WaitersOk(s) && i < |s.sems| && WaitOk(s, i, e)
    ensures WaitersOk(DownWith(s, i, e))
  {
    var s' := DownWith(s, i, e);
    forall j: nat, k | j < |s'.sems| && 0 <= k < |s'.sems[j].sem.waiting|
      ensures WaitOk(s', j, s'.sems[j].sem.waiting[k])
    {
      JoinOkStays(s, s', s'.sems[j].sem.waiting[k]);
      if k < |s.sems[j].sem.waiting| {
        assert s'.sems[j].sem.waiting[k] == s.sems[j].sem.waiting[k];
        assert WaitOk(s, j, s.sems[j].sem.waiting[k]);
      }
    }
  }

  lemma BlockJoin(s: State, c: nat, i: nat, e: Event)
    requires JoinInv(s) && i < |s.sems| && WaitOk(s, i, e)
    ensures JoinInv(Block(s, c, i, e))
  {
    DownJoin(s, i, e);
    CoreJoin(DownWith(s, i, e), c, Idle);
  }

  lemma SwitchJoin(s: State, c: nat, p: nat)
    requires JoinInv(s) && p < |s.procs|
    ensures JoinInv(Sys1(s, c, p, Switch).value)
  {
    CoreJoin(s, c, Idle);
    ReadyJoin(SetCore(s, c, Idle), s.ready + [Event(p, [], false)]);
  }

  lemma ReadyJoin(s: State, ready: seq<Event>)
    requires JoinInv(s) && forall k :: 0 <= k < |ready| ==> GrantOk(s, ready[k])
    ensures JoinInv(s.(ready := ready))
  {
    var s' := s.(ready := ready);
    forall e ensures GrantOk(s', e) == GrantOk(s, e) && JoinOk(s', e) == JoinOk(s, e) {
      JoinOkStays(s, s', e);
    }
    forall r | 0 <= r < |s'.procs| ensures ExitOk(s', r) {
      assert ExitOk(s, r);
    }
    forall j: nat, l | j < |s'.sems| && 0 <= l < |s'.sems[j].sem.waiting|
      ensures WaitOk(s', j, s'.sems[j].sem.waiting[l])
    {
      assert WaitOk(s, j, s.sems[j].sem.waiting[l]);
    }
  }

  // ---- The calls that change the processes ----

  /** The tables may grow and processes other than p keep their children; events of p do not occur. */
  ghost predicate OthersKeep(s: State, s': State, p: nat) {
    && |s.procs| <= |s'.procs| && |s.sems| <= |s'.sems|
    && (forall i :: 0 <= i < |s.sems| ==> s'.sems[i] == s.sems[i])
    && (forall q :: 0 <= q < |s.procs| ==>
          s'.procs[q].exit == s.procs[q].exit && (s'.procs[q].live ==> s.procs[q].live))
    && (forall q :: 0 <= q < |s.procs| && q != p ==> s'.procs[q].children == s.procs[q].children)
  }

  lemma OthersJoinOk(s: State, s': State, p: nat, e: Event)
    requires OthersKeep(s, s', p) && e.pid != p
    ensures (JoinOk(s, e) ==> JoinOk(s', e)) && (GrantOk(s, e) ==> GrantOk(s', e))
  {
  }

  lemma OthersJoin(s: State, s': State, p: nat)
    requires JoinInv(s) && OthersKeep(s, s', p) && s'.cores == s.cores && ExitsOk(s')
    requires forall e :: Occurs(s, e) ==> e.pid != p
    requires forall k :: 0 <= k < |s'.ready| ==>
               (k < |s.ready| && s'.ready[k] == s.ready[k]) || GrantOk(s', s'.ready[k])
    requires forall i :: |s.sems| <= i < |s'.sems| ==> s'.sems[i].sem.waiting == []
    ensures JoinInv(s')
  {
    forall c | 0 <= c < |s'.cores| && s'.cores[c].Handling? ensures GrantOk(s', s'.cores[c].e) {
      assert Occurs(s, s.cores[c].e);
      OthersJoinOk(s, s', p, s.cores[c].e);
    }
    forall k | 0 <= k < |s'.ready| ensures GrantOk(s', s'.ready[k]) {
      if k < |s.ready| && s'.ready[k] == s.ready[k] {
        assert Occurs(s, s.ready[k]);
        OthersJoinOk(s, s', p, s.ready[k]);
      }
    }
    forall i: nat, k | i < |s'.sems| && 0 <= k < |s'.sems[i].sem.waiting|
      ensures WaitOk(s', i, s'.sems[i].sem.waiting[k])
    {
      var e := s.sems[i].sem.waiting[k];
      assert e in s.sems[i].sem.waiting && Occurs(s, e) && WaitOk(s, i, e);
      OthersJoinOk(s, s', p, e);
    }
  }

  lemma NoEventOf(s: State, c: nat, p: nat)
    requires OneToken(s) && c < |s.cores| && s.cores[c] == User(p)
    ensures forall e :: Occurs(s, e) ==> e.pid != p
  {
    forall e | Occurs(s, e) ensures e.pid != p {
      RunningHasNoEvent(s, c, p, e);
    }
  }

  lemma ForkJoin(s: State, c: nat, p: nat)
    requires OneToken(s) && JoinInv(s) && c < |s.cores| && s.cores[c] == User(p) && p < |s.procs|
    ensures JoinInv(Sys1(s, c, p, Fork).value)
  {
    var s' := Sys1(s, c, p, Fork).value;
    NoEventOf(s, c, p);
    assert OthersKeep(s, s', p);
    forall q | 0 <= q < |s'.procs| ensures ExitOk(s', q) {
      if q < |s.procs| { assert ExitOk(s, q); }
    }
    forall q, r | 0 <= q < r < |s'.procs| ensures s'.procs[q].exit != s'.procs[r].exit {
      assert ExitOk(s, q);
    }
    assert ExitsOk(s');
    OthersJoin(s, s', p);
  }

  /** The process is marked as exited, and then its future is set. */
  lemma ExitJoin(s: State, c: nat, p: nat, v: int)
    requires OneToken(s) && JoinInv(s) && c < |s.cores| && s.cores[c] == User(p) && p < |s.procs|
    ensures JoinInv(Sys1(s, c, p, Exit(v)).value)
  {
    var s1 := s.(procs := s.procs[p := s.procs[p].(live := false, status := v)]);
    NoEventOf(s, c, p);
    forall q | 0 <= q < |s1.procs| ensures ExitOk(s1, q) {
      assert ExitOk(s, q);
    }
    assert ExitsOk(s1);
    OthersJoin(s, s1, p);
    var x := s.procs[p].exit;
    assert ExitOk(s, p);
    UpJoin(s1, x, p);
    CoreJoin(UpOn(s1, x), c, Idle);
    assert Sys1(s, c, p, Exit(v)).value == SetCore(UpOn(s1, x), c, Idle);
  }

  lemma JoinJoin(s: State, c: nat, p: nat)
    requires JoinInv(s) && p < |s.procs| && Sys1(s, c, p, Join).Some?
    ensures JoinInv(Sys1(s, c, p, Join).value)
  {
    if s.procs[p].children != [] {
      assert ExitOk(s, p);
      var q := Youngest(s, p);
      assert ExitOk(s, q);
      var x := s.procs[q].exit;
      assert WaitOk(s, x, Event(p, [x], true));
      BlockJoin(s, c, x, Event(p, [x], true));
    }
  }

  lemma NewSemJoin(s: State, c: nat, p: nat, n: nat)
    requires JoinInv(s) && OneToken(s) && c < |s.cores| && s.cores[c] == User(p)
    ensures JoinInv(s.(sems := s.sems + [Slot(S.Sem(n, []), true)]))
  {
    var s' := s.(sems := s.sems + [Slot(S.Sem(n, []), true)]);
    NoEventOf(s, c, p);
    forall q | 0 <= q < |s'.procs| ensures ExitOk(s', q) {
      assert ExitOk(s, q);
    }
    OthersJoin(s, s', p);
  }

  lemma Sys1Join(s: State, c: nat, p: nat, call: Call)
    requires OneToken(s) && JoinInv(s) && c < |s.cores| && s.cores[c] == User(p) && p < |s.procs|
    requires Sys1(s, c, p, call).Some?
    ensures JoinInv(Sys1(s, c, p, call).value)
  {
    match call
    case Switch => SwitchJoin(s, c, p);
    case Down(i) => if Usable(s, i) { BlockJoin(s, c, i, Event(p, [], false)); }
    case Up(i) => if Usable(s, i) { UpJoin(s, i, p); }
    case PipeWrite(empty, full) =>
      if Usable(s, empty) && Usable(s, full) { BlockJoin(s, c, empty, Event(p, [full], false)); }
    case PipeRead(empty, full) =>
      if Usable(s, empty) && Usable(s, full) { BlockJoin(s, c, full, Event(p, [empty], false)); }
    case Join => JoinJoin(s, c, p);
    case Fork => ForkJoin(s, c, p);
    case Exit(v) => ExitJoin(s, c, p, v);
    case NewSem(n) => NewSemJoin(s, c, p, n);
  }

  // ---- Steps of the event loop ----

  lemma DispatchJoin(s: State, c: nat)
    requires JoinInv(s) && Step(s, Dispatch(c)).Some?
    ensures JoinInv(Step(s, Dispatch(c)).value)
  {
    CoreJoin(s, c, Handling(s.ready[0]));
    var s1 := SetCore(s, c, Handling(s.ready[0]));
    ReadyJoin(s1, s.ready[1..]);
  }

  lemma TodoJoin(s: State, c: nat, e: Event)
    requires JoinInv(s) && c < |s.cores| && s.cores[c] == Handling(e) && e.todo != []
    ensures JoinInv(SetCore(UpOn(s, e.todo[0]), c, Handling(e.(todo := e.todo[1..]))))
  {
    assert GrantOk(s, e);
    var i := e.todo[0];
    assert i in e.todo;
    if e.join {
      assert ExitOk(s, Youngest(s, e.pid));
      UpJoin(s, i, Youngest(s, e.pid));
    } else {
      UpJoin(s, i, 0);
    }
    var e' := e.(todo := e.todo[1..]);
    assert GrantOk(s, e') by {
      forall t | t in e'.todo ensures t in e.todo {
      }
    }
    JoinOkStays(s, UpOn(s, i), e');
    CoreJoin(UpOn(s, i), c, Handling(e'));
  }

  /** The end of a join: the youngest child, taken off the stack, has exited. */
  lemma JoinedJoin(s: State, c: nat, e: Event)
    requires OneToken(s) && JoinInv(s) && c < |s.cores| && s.cores[c] == Handling(e) && e.todo == [] && e.join
    requires Step(s, Continue(c)).Some?
    ensures JoinInv(Step(s, Continue(c)).value)
  {
    var p := e.pid;
    var s1 := SetCore(s, c, User(p));
    var s' := Step(s, Continue(c)).value;
    assert GrantOk(s, e);
    CoreJoin(s, c, User(p));
    assert OneToken(s1) by {
      forall q: nat ensures Held(s1, q) == Alive(s1, q) {
        ContinueHolds(s, c, 0, User(p), q);
      }
    }
    NoEventOf(s1, c, p);
    forall q | 0 <= q < |s'.procs| ensures ExitOk(s', q) {
      assert ExitOk(s1, q);
    }
    assert ExitsOk(s');
    OthersJoin(s1, s', p);
  }

  lemma ContinueJoin(s: State, c: nat)
    requires OneToken(s) && JoinInv(s) && Step(s, Continue(c)).Some?
    ensures JoinInv(Step(s, Continue(c)).value)
  {
    var e := s.cores[c].e;
    if e.todo != [] {
      TodoJoin(s, c, e);
    } else if e.join {
      JoinedJoin(s, c, e);
    } else {
      CoreJoin(s, c, User(e.pid));
    }
  }

  lemma StepKeeps(s: State, a: Action)
    requires OneToken(s) && JoinInv(s) && Step(s, a).Some?
    ensures JoinInv(Step(s, a).value)
  {
    match a
    case Sys(c, call) => Sys1Join(s, c, s.cores[c].pid, call);
    case Dispatch(c) => DispatchJoin(s, c);
    case Continue(c) => ContinueJoin(s, c);
  }

  lemma {:induction false} RunKeeps(s: State, acts: seq<Action>)
    requires OneToken(s) && JoinInv(s) && Run(s, acts).Some?
    ensures JoinInv(Run(s, acts).value)
    decreases |acts|
  {
    if acts != [] {
      StepKeeps(s, acts[0]);
      Scheduling.StepKeeps(s, acts[0]);
      RunKeeps(Step(s, acts[0]).value, acts[1..]);
    }
  }

  // ---- The value that a process exits with ----

  /** Taken in s, action a is process q's call of exit with value v. */
  predicate Exits(s: State, a: Action, q: nat, v: int) {
    a.Sys? && a.call == Exit(v) && a.c < |s.cores| && s.cores[a.c] == User(q)
  }

  /** Step k of the run is that call. */
  ghost predicate ExitsAt(s: State, acts: seq<Action>, k: nat, q: nat, v: int) {
    k < |acts| && Run(s, acts[..k]).Some? && Exits(Run(s, acts[..k]).value, acts[k], q, v)
  }

  lemma ExitsLater(s: State, acts: seq<Action>, k: nat, q: nat, v: int)
    requires acts != [] && Step(s, acts[0]).Some?
    ensures ExitsAt(s, acts, k + 1, q, v) == ExitsAt(Step(s, acts[0]).value, acts[1..], k, q, v)
  {
    if k + 1 < |acts| {
      assert acts[..k + 1][1..] == acts[1..][..k];
    }
  }

  /** Only its own call of exit ends a process, and that records the value. */
  lemma LastStep(s: State, a: Action, q: nat)
    requires OneToken(s) && Step(s, a).Some? && q < |Step(s, a).value.procs| && !Step(s, a).value.procs[q].live
    requires q < |s.procs| ==> s.procs[q].live
    ensures Exits(s, a, q, Step(s, a).value.procs[q].status)
  {
  }

  /** A process that exits is ended. */
  lemma ExitEnds(s: State, a: Action, q: nat, v: int)
    requires OneToken(s) && Step(s, a).Some? && Exits(s, a, q, v)
    ensures q < |Step(s, a).value.procs| && !Step(s, a).value.procs[q].live && q < |s.procs| && s.procs[q].live
  {
    RunningIsNowhereElse(s, a.c, q);
  }

  lemma DeadStep(s: State, a: Action, q: nat)
    requires OneToken(s) && Step(s, a).Some? && q < |s.procs| && !s.procs[q].live
    ensures var s' := Step(s, a).value;
            q < |s'.procs| && !s'.procs[q].live && s'.procs[q].status == s.procs[q].status
  {
    if a.Sys? {
      RunningIsNowhereElse(s, a.c, s.cores[a.c].pid);
    }
  }

  /** A process that has ended never exits again, and its value stands. */
  lemma {:induction false} DeadStays(s: State, acts: seq<Action>, q: nat)
    requires OneToken(s) && Run(s, acts).Some? && q < |s.procs| && !s.procs[q].live
    ensures var s' := Run(s, acts).value;
            q < |s'.procs| && !s'.procs[q].live && s'.procs[q].status == s.procs[q].status
    ensures forall j, v :: !ExitsAt(s, acts, j, q, v)
    decreases |acts|
  {
    if acts != [] {
      var s1 := Step(s, acts[0]).value;
      Scheduling.StepKeeps(s, acts[0]);
      DeadStep(s, acts[0], q);
      DeadStays(s1, acts[1..], q);
      forall j: nat, v ensures !ExitsAt(s, acts, j, q, v) {
        if j > 0 {
          ExitsLater(s, acts, j - 1, q, v);
        } else if ExitsAt(s, acts, 0, q, v) {
          ExitEnds(s, acts[0], q, v);
        }
      }
    }
  }

  /** A process that is over at the end of a run called exit exactly once in it, at step k, and what is kept is
      the value of that call. */
  lemma {:induction false} ExitedOnce(s: State, acts: seq<Action>, q: nat) returns (k: nat)
    requires OneToken(s) && Run(s, acts).Some? && (q < |s.procs| ==> s.procs[q].live)
    requires q < |Run(s, acts).value.procs| && !Run(s, acts).value.procs[q].live
    ensures ExitsAt(s, acts, k, q, Run(s, acts).value.procs[q].status)
    ensures forall j, v :: ExitsAt(s, acts, j, q, v) ==> j == k
    decreases |acts|
  {
    var s1 := Step(s, acts[0]).value;
    var v := Run(s, acts).value.procs[q].status;
    Scheduling.StepKeeps(s, acts[0]);
    if q < |s1.procs| && !s1.procs[q].live {
      k := 0;
      LastStep(s, acts[0], q);
      DeadStays(s1, acts[1..], q);
      assert acts[..0] == [];
    } else {
      var l := ExitedOnce(s1, acts[1..], q);
      k := l + 1;
      ExitsLater(s, acts, l, q, v);
    }
    OnlyOnce(s, acts, q, k);
  }

  lemma OnlyOnce(s: State, acts: seq<Action>, q: nat, k: nat)
    requires OneToken(s) && acts != [] && Step(s, acts[0]).Some? && k < |acts|
    requires k == 0 ==> forall j, v :: !ExitsAt(Step(s, acts[0]).value, acts[1..], j, q, v)
    requires k > 0 ==> q < |Step(s, acts[0]).value.procs| ==> Step(s, acts[0]).value.procs[q].live
    requires k > 0 ==> forall j, v :: ExitsAt(Step(s, acts[0]).value, acts[1..], j, q, v) ==> j == k - 1
    ensures forall j, v :: ExitsAt(s, acts, j, q, v) ==> j == k
  {
    forall j: nat, v | ExitsAt(s, acts, j, q, v) ensures j == k {
      if j > 0 {
        ExitsLater(s, acts, j - 1, q, v);
      } else {
        ExitEnds(s, acts[0], q, v);
      }
    }
  }

  /** A step that ends a join. */
  ghost predicate EndsJoin(s: State, c: nat, p: nat) {
    c < |s.cores| && s.cores[c] == Handling(Event(p, [], true))
  }

  /** In every run on any number of cores: when a join ends, the child that the parent then takes off its
      stack has exited, and join returns the value that the child gave to exit in its only call of it. */
  lemma JoinWaits(n: nat, acts: seq<Action>, c: nat, p: nat) returns (k: nat)
    requires Run(Boot(n), acts).Some? && EndsJoin(Run(Boot(n), acts).value, c, p)
    ensures var s := Run(Boot(n), acts).value;
            && p < |s.procs| && s.procs[p].children != [] && Youngest(s, p) < |s.procs| && !s.procs[Youngest(s, p)].live
            && Step(s, Continue(c)).Some? && Step(s, Continue(c)).value.cores[c] == User(p)
            && Step(s, Continue(c)).value.procs[p].children + [Youngest(s, p)] == s.procs[p].children
            && ExitsAt(Boot(n), acts, k, Youngest(s, p), Step(s, Continue(c)).value.procs[p].joined)
            && forall j, v :: ExitsAt(Boot(n), acts, j, Youngest(s, p), v) ==> j == k
  {
    BootJoins(n);
    EveryRun(n, []);
    RunKeeps(Boot(n), acts);
    var s := Run(Boot(n), acts).value;
    assert GrantOk(s, s.cores[c].e);
    k := ExitedOnce(Boot(n), acts, Youngest(s, p));
  }

  lemma BootJoins(n: nat)
    ensures JoinInv(Boot(n))
  {
  }
}

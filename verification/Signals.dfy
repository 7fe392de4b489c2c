/** Signal delivery to one process: faults, kills and preemption, and the way back from a handler. */
module Signals {
  import opened Words
  import opened Wrappers

  /** Where a handler returns to; nothing is mapped there, so the return faults. */
  const RETURN_ADDRESS := 0x2000
  const SEGMENTATION_FAULT := 139

  /** The registers of a process; `rest` stands for the ones the kernel does not look at. */
  datatype Context = Context(eip: int, esp: int, eax: int, rest: int)

  /** On a core, off it with its registers in `context`, or gone. */
  datatype Mode = Running(ctx: Context) | Stopped | Exited(status: int)

  datatype Proc = Proc(mode: Mode, context: Context, inHandler: bool, handlerEip: int, saved: Context,
                       killed: bool, killedV: int, handled: bool, memory: map<int, int>)

  datatype Action =
    | Compute(ctx: Context, memory: map<int, int>)  // the process runs on its own
    | Fault(va: int, inRegion: bool)
    | Timer
    | Yield
    | SetHandler(eip: int, interrupted: bool)
    | SigReturn(interrupted: bool)
    | OtherCall(value: int, interrupted: bool)
    | BlockingCall
    | Resume(result: Option<int>)                   // with a result when it was blocked
    | Kill(v: int)                                  // by the parent
    | ExitCall(status: int)

  /** Off the core, to go on at ctx. */
  function SwitchOut(p: Proc, ctx: Context): Proc {
    p.(mode := Stopped, context := ctx)
  }

  /** Back from a call with its value, by way of the ready queue when the timer fired meanwhile. */
  function Return(p: Proc, ctx: Context, value: int, interrupted: bool): Proc {
    var ctx' := ctx.(eax := value);
    if interrupted then SwitchOut(p, ctx') else p.(mode := Running(ctx'))
  }

  function Below(esp: int, bytes: int): int {
    (esp - bytes) % WORD_LIMIT
  }

  /** Enters the handler with the signal number and its argument on the stack, 128 bytes further down. */
  function Deliver(p: Proc, ctx: Context, num: int, arg: int): Proc {
    p.(saved := ctx, inHandler := true, mode := Running(Context(p.handlerEip, Below(ctx.esp, 140), 0, 0)),
       memory := p.memory[Below(ctx.esp, 132) := arg][Below(ctx.esp, 136) := num]
                         [Below(ctx.esp, 140) := RETURN_ADDRESS])
  }

  /** Leaves the handler for the saved context. */
  function Leave(p: Proc): Proc {
    SwitchOut(p.(inHandler := false), p.saved)
  }

  function PageFault(p: Proc, ctx: Context, va: int, inRegion: bool): Proc {
    if p.inHandler && va == RETURN_ADDRESS then Leave(p)
    else if !inRegion then
      if p.handlerEip == 0 || p.inHandler then p.(mode := Exited(SEGMENTATION_FAULT)) else Deliver(p, ctx, 1, va)
    else p
  }

  function TimerTick(p: Proc, ctx: Context): Proc {
    if p.killed && !p.handled && !p.inHandler then
      var p1 := p.(handled := true);
      if p.handlerEip == 0 then p1.(mode := Exited(p.killedV)) else Deliver(p1, ctx, 2, p.killedV)
    else SwitchOut(p, ctx)
  }

  /** kill answers 0 and marks the child, or answers -1. */
  function KillCall(p: Proc, v: int): (Proc, int) {
    if p.killed || p.handled then (p, -1) else (p.(killed := true, killedV := v), 0)
  }

  function Step(p: Proc, a: Action): Option<Proc> {
    match a
    case Kill(v) => Some(KillCall(p, v).0)
    case Resume(result) =>
      if p.mode.Stopped? then
        Some(p.(mode := Running(if result.Some? then p.context.(eax := result.value) else p.context)))
      else None
    case _ =>
      if !p.mode.Running? then None
      else
        var ctx := p.mode.ctx;
        match a
        case Compute(ctx', memory) => Some(p.(mode := Running(ctx'), memory := memory))
        case Fault(va, inRegion) => Some(PageFault(p, ctx, va, inRegion))
        case Timer => Some(TimerTick(p, ctx))
        case Yield => Some(SwitchOut(p, ctx))
        case SetHandler(eip, interrupted) => Some(Return(p.(handlerEip := eip), ctx, 1, interrupted))
        case SigReturn(interrupted) => Some(if p.inHandler then Leave(p) else Return(p, ctx, -1, interrupted))
        case OtherCall(value, interrupted) => Some(Return(p, ctx, value, interrupted))
        case BlockingCall => Some(SwitchOut(p, ctx))
        case ExitCall(status) => Some(p.(mode := Exited(status)))
  }

  function Steps(p: Proc, acts: seq<Action>): Option<Proc>
    decreases |acts|
  {
    if acts == [] then Some(p)
    else
      var p' :- Step(p, acts[0]);
      Steps(p', acts[1..])
  }

  // ---- The saved context ----

  /** The two ways out of a handler. */
  predicate Leaves(a: Action) {
    a.SigReturn? || (a.Fault? && a.va == 0x2000)
  }

  /** Inside a handler nothing overwrites the saved context, and only sigreturn or the return to 0x2000
      leaves it. */
  lemma SavedStays(p: Proc, a: Action)
    requires p.inHandler && Step(p, a).Some?
    ensures var p' := Step(p, a).value;
            if Leaves(a) then !p'.inHandler && p'.mode == Stopped && p'.context == p.saved
            else p'.inHandler && p'.saved == p.saved
  {
  }

  lemma {:induction false} SavedStaysThrough(p: Proc, acts: seq<Action>)
    requires p.inHandler && Steps(p, acts).Some? && forall k :: 0 <= k < |acts| ==> !Leaves(acts[k])
    ensures Steps(p, acts).value.inHandler && Steps(p, acts).value.saved == p.saved
    decreases |acts|
  {
    if acts != [] {
      SavedStays(p, acts[0]);
      SavedStaysThrough(Step(p, acts[0]).value, acts[1..]);
    }
  }

  /** A process off its core stays there, to go on where it was, until it is resumed. */
  lemma {:induction false} StoppedWaits(p: Proc, acts: seq<Action>)
    requires p.mode == Stopped && Steps(p, acts).Some? && forall k :: 0 <= k < |acts| ==> !acts[k].Resume?
    ensures Steps(p, acts).value.mode == Stopped && Steps(p, acts).value.context == p.context
    decreases |acts|
  {
    if acts != [] {
      StoppedWaits(Step(p, acts[0]).value, acts[1..]);
    }
  }

  /** A signal is delivered: the step enters the handler. */
  ghost predicate Delivers(p: Proc, a: Action) {
    !p.inHandler && Step(p, a).Some? && Step(p, a).value.inHandler
  }

  /** A process interrupted at ctx by a signal, however long its handler runs, however often it is
      preempted, blocked, killed again or faults on mapped pages meanwhile, goes on at ctx. */
  lemma ComesBack(p: Proc, deliver: Action, inside: seq<Action>, leave: Action, waits: seq<Action>)
    requires Delivers(p, deliver) && Leaves(leave)
    requires forall k :: 0 <= k < |inside| ==> !Leaves(inside[k])
    requires forall k :: 0 <= k < |waits| ==> !waits[k].Resume?
    requires Steps(Step(p, deliver).value, inside).Some?
    requires Step(Steps(Step(p, deliver).value, inside).value, leave).Some?
    requires Steps(Step(Steps(Step(p, deliver).value, inside).value, leave).value, waits).Some?
    ensures p.mode.Running?
    ensures var p3 := Steps(Step(Steps(Step(p, deliver).value, inside).value, leave).value, waits).value;
            Step(p3, Resume(None)).Some? && Step(p3, Resume(None)).value.mode == p.mode && !p3.inHandler
  {
    var p1 := Step(p, deliver).value;
    assert p.mode.Running? && p1.saved == p.mode.ctx;
    SavedStaysThrough(p1, inside);
    var p2 := Steps(p1, inside).value;
    SavedStays(p2, leave);
    StoppedWaits(Step(p2, leave).value, waits);
    StoppedOutside(Step(p2, leave).value, waits);
  }

  lemma {:induction false} StoppedOutside(p: Proc, acts: seq<Action>)
    requires p.mode == Stopped && !p.inHandler && Steps(p, acts).Some?
    requires forall k :: 0 <= k < |acts| ==> !acts[k].Resume?
    ensures !Steps(p, acts).value.inHandler
    decreases |acts|
  {
    if acts != [] {
      StoppedOutside(Step(p, acts[0]).value, acts[1..]);
    }
  }

  // ---- Interruptions that a process does not notice ----

  /** The timer has a kill to act on. */
  predicate KillDue(p: Proc) {
    p.killed && !p.handled && !p.inHandler
  }

  /** Calls, ticks and faults after which the process goes on: those that neither end it, nor enter a handler,
      nor leave one. */
  predicate GoesOn(p: Proc, a: Action) {
    match a
    case Timer => !KillDue(p)
    case Yield => true
    case BlockingCall => true
    case SetHandler(_, _) => true
    case OtherCall(_, _) => true
    case SigReturn(_) => !p.inHandler
    case Fault(va, inRegion) => inRegion && !(p.inHandler && va == 0x2000)
    case _ => false
  }

  /** The registers with which it does: those it had, with the result of a call that has one. */
  function Answered(ctx: Context, a: Action): Context {
    match a
    case SetHandler(_, _) => ctx.(eax := 1)
    case OtherCall(value, _) => ctx.(eax := value)
    case SigReturn(_) => ctx.(eax := -1)
    case _ => ctx
  }

  /** Whether it keeps its core. */
  predicate KeepsCore(a: Action) {
    match a
    case Fault(_, _) => true
    case SetHandler(_, interrupted) => !interrupted
    case OtherCall(_, interrupted) => !interrupted
    case SigReturn(interrupted) => !interrupted
    case _ => false
  }

  /** Nothing but the mode, the stored context and, after a call that sets it, the handler. */
  ghost predicate SameBut(p: Proc, p': Proc, handlerEip: int) {
    p' == p.(mode := p'.mode, context := p'.context, handlerEip := handlerEip)
  }

  /** After a call, a tick or a fault of this kind the process goes on where it was, with the result of the
      call: at once, or whenever it is resumed, whatever happens meanwhile. */
  lemma GoesOnThere(p: Proc, a: Action, waits: seq<Action>, result: int)
    requires p.mode.Running? && GoesOn(p, a)
    requires Step(p, a).Some? ==> Steps(Step(p, a).value, waits).Some?
    requires forall k :: 0 <= k < |waits| ==> !waits[k].Resume?
    ensures Step(p, a).Some? && SameBut(p, Step(p, a).value, if a.SetHandler? then a.eip else p.handlerEip)
    ensures KeepsCore(a) ==> Step(p, a).value.mode == Running(Answered(p.mode.ctx, a))
    ensures !KeepsCore(a) ==>
              && Step(p, a).value.mode == Stopped
              && Step(Steps(Step(p, a).value, waits).value, Resume(None)).Some?
              && Step(Steps(Step(p, a).value, waits).value, Resume(None)).value.mode == Running(Answered(p.mode.ctx, a))
              && Step(Steps(Step(p, a).value, waits).value, Resume(Some(result))).Some?
              && Step(Steps(Step(p, a).value, waits).value, Resume(Some(result))).value.mode
                 == Running(Answered(p.mode.ctx, a).(eax := result))
  {
    if !KeepsCore(a) {
      StoppedWaits(Step(p, a).value, waits);
    }
  }

  /** A process ends by its own exit, by a kill without a handler for it, or by a fault outside its regions
      that no handler takes, which counts as exit 139. */
  lemma EndsWhen(p: Proc, a: Action, v: int)
    requires p.mode.Running?
    ensures Step(p, a).Some? && Step(p, a).value.mode == Exited(v) <==>
            || a == ExitCall(v)
            || (a == Timer && KillDue(p) && p.handlerEip == 0 && v == p.killedV)
            || (a.Fault? && !a.inRegion && !(p.inHandler && a.va == 0x2000) && (p.inHandler || p.handlerEip == 0)
                && v == 139)
  {
  }

  /** A handler is entered for a fault outside the regions, or for a kill, when there is one and it is not
      running. */
  lemma DeliversWhen(p: Proc, a: Action)
    ensures Delivers(p, a) <==> && p.mode.Running? && !p.inHandler && p.handlerEip != 0
                                && ((a.Fault? && !a.inRegion) || (a == Timer && KillDue(p)))
  {
  }

  /** Delivery changes no memory at or above the 128 bytes below the stack pointer. */
  lemma DeliveryKeepsStack(p: Proc, a: Action, x: int)
    requires Delivers(p, a) && p.mode.Running? && 140 <= p.mode.ctx.esp < WORD_LIMIT && x >= p.mode.ctx.esp - 128
    ensures var p' := Step(p, a).value;
            (x in p'.memory <==> x in p.memory) && (x in p.memory ==> p'.memory[x] == p.memory[x])
  {
    assert p.mode.ctx.esp - 140 == Below(p.mode.ctx.esp, 140);
    assert p.mode.ctx.esp - 136 == Below(p.mode.ctx.esp, 136);
    assert p.mode.ctx.esp - 132 == Below(p.mode.ctx.esp, 132);
  }

  /** What the handler finds: a return address, the signal number and the argument. */
  lemma HandlerFrame(p: Proc, a: Action)
    requires Delivers(p, a)
    ensures var p' := Step(p, a).value;
            && p.mode.Running? && p'.mode.Running? && p.handlerEip != 0
            && p'.mode.ctx.eip == p.handlerEip && p'.mode.ctx.esp == Below(p.mode.ctx.esp, 140)
            && Frame(p'.memory, p.mode.ctx.esp, if a.Fault? then 1 else 2, if a.Fault? then a.va else p.killedV)
  {
    var esp := p.mode.ctx.esp;
    assert Below(esp, 140) != Below(esp, 136) && Below(esp, 140) != Below(esp, 132)
           && Below(esp, 136) != Below(esp, 132) by {
      Apart(esp, 140, 136);
      Apart(esp, 140, 132);
      Apart(esp, 136, 132);
    }
  }

  predicate Frame(memory: map<int, int>, esp: int, num: int, arg: int) {
    && Below(esp, 140) in memory && memory[Below(esp, 140)] == 0x2000
    && Below(esp, 136) in memory && memory[Below(esp, 136)] == num
    && Below(esp, 132) in memory && memory[Below(esp, 132)] == arg
  }

  lemma Apart(esp: int, m: int, n: int)
    requires 0 < m - n < WORD_LIMIT
    ensures Below(esp, m) != Below(esp, n)
  {
    var q := (esp - n) / WORD_LIMIT - (esp - m) / WORD_LIMIT;
    assert m - n == q * WORD_LIMIT + Below(esp, n) - Below(esp, m);
  }

  // ---- Kill ----

  /** The step acts on a kill: a timer tick that ends the process with the value sent, or enters its handler
      with signal 2 and that value. */
  ghost predicate ActsOnKill(p: Proc, a: Action) {
    && a == Timer && p.mode.Running? && Step(p, a).Some?
    && var p' := Step(p, a).value;
       || p'.mode == Exited(p.killedV)
       || (Delivers(p, a) && Frame(p'.memory, p.mode.ctx.esp, 2, p.killedV))
  }

  /** How often a run does so. */
  ghost function KillsActed(p: Proc, acts: seq<Action>): nat
    decreases |acts|
  {
    if acts == [] || Step(p, acts[0]).None? then 0
    else (if ActsOnKill(p, acts[0]) then 1 else 0) + KillsActed(Step(p, acts[0]).value, acts[1..])
  }

  /** In every run at most one kill is acted on, and none once one has been. */
  lemma {:induction false} OneKill(p: Proc, acts: seq<Action>)
    ensures KillsActed(p, acts) <= if p.handled then 0 else 1
    decreases |acts|
  {
    if acts != [] && Step(p, acts[0]).Some? {
      if p.handled { HandledStays(p, acts[0]); }
      ActsOnce(p, acts[0]);
      OneKill(Step(p, acts[0]).value, acts[1..]);
    }
  }

  /** A step acts on a kill exactly when it marks the kill as handled; that takes one that is pending. */
  lemma ActsOnce(p: Proc, a: Action)
    requires Step(p, a).Some?
    ensures ActsOnKill(p, a) <==> !p.handled && Step(p, a).value.handled
    ensures ActsOnKill(p, a) ==> p.killed && !p.inHandler
  {
    if Delivers(p, a) { HandlerFrame(p, a); }
  }

  lemma HandledStays(p: Proc, a: Action)
    requires p.handled && Step(p, a).Some?
    ensures Step(p, a).value.handled
  {
  }

  /** A kill that has been accepted is neither lost nor changed: until it is acted on it stays pending with
      its value, and the first timer tick outside a handler acts on it. */
  lemma KillPends(p: Proc, a: Action)
    requires p.killed && !p.handled && Step(p, a).Some?
    ensures var p' := Step(p, a).value;
            && p'.killed && p'.killedV == p.killedV
            && (p'.handled <==> a == Timer && !p.inHandler)
            && (p'.handled ==> if p.handlerEip == 0 then p'.mode == Exited(p.killedV) else Delivers(p, a))
  {
  }

  lemma {:induction false} KillPendsThrough(p: Proc, acts: seq<Action>)
    requires p.killed && !p.handled && Steps(p, acts).Some? && !Steps(p, acts).value.handled
    ensures Steps(p, acts).value.killed && Steps(p, acts).value.killedV == p.killedV
    decreases |acts|
  {
    if acts != [] {
      var p' := Step(p, acts[0]).value;
      if p'.handled {
        HandledStaysThrough(p', acts[1..]);
      } else {
        KillPends(p, acts[0]);
        KillPendsThrough(p', acts[1..]);
      }
    }
  }

  lemma {:induction false} HandledStaysThrough(p: Proc, acts: seq<Action>)
    requires p.handled && Steps(p, acts).Some?
    ensures Steps(p, acts).value.handled
    decreases |acts|
  {
    if acts != [] {
      HandledStays(p, acts[0]);
      HandledStaysThrough(Step(p, acts[0]).value, acts[1..]);
    }
  }

  /** A kill that is accepted arrives with its value at the first tick outside a handler, however long that
      takes. */
  lemma KillArrives(p: Proc, v: int, acts: seq<Action>)
    requires !p.killed && !p.handled && Steps(Step(p, Kill(v)).value, acts).Some?
    requires var q := Steps(Step(p, Kill(v)).value, acts).value;
             !q.handled && !q.inHandler && q.mode.Running?
    ensures var q := Steps(Step(p, Kill(v)).value, acts).value;
            && Step(q, Timer).Some?
            && if q.handlerEip == 0 then Step(q, Timer).value.mode == Exited(v)
               else Delivers(q, Timer) && Frame(Step(q, Timer).value.memory, q.mode.ctx.esp, 2, v)
  {
    var p1 := Step(p, Kill(v)).value;
    KillPendsThrough(p1, acts);
    var q := Steps(p1, acts).value;
    KillPends(q, Timer);
    if q.handlerEip != 0 { HandlerFrame(q, Timer); }
  }

  // ---- fork ----

  /** The child of a fork starts at (eip, esp), with the parent's handler state and no kill. */
  function ForkChild(p: Proc, eip: int, esp: int): Proc {
    Proc(Running(Context(eip, esp, 0, 0)), Context(0, 0, 0, 0), p.inHandler, p.handlerEip, p.saved,
         false, 0, false, p.memory)
  }

  /** A child forked inside a handler leaves it for the context that its parent was interrupted at. */
  lemma ChildComesBack(p: Proc, eip: int, esp: int, inside: seq<Action>, leave: Action)
    requires p.inHandler && Leaves(leave) && forall k :: 0 <= k < |inside| ==> !Leaves(inside[k])
    requires Steps(ForkChild(p, eip, esp), inside).Some?
    requires Step(Steps(ForkChild(p, eip, esp), inside).value, leave).Some?
    ensures var q := Step(Steps(ForkChild(p, eip, esp), inside).value, leave).value;
            q.mode == Stopped && q.context == p.saved && !q.inHandler
  {
    SavedStaysThrough(ForkChild(p, eip, esp), inside);
    SavedStays(Steps(ForkChild(p, eip, esp), inside).value, leave);
  }

  /** A child is where the call left it, sees its parent's memory, and takes a fault as its parent would. */
  lemma ChildIsLikeParent(p: Proc, eip: int, esp: int, va: int)
    requires p.mode.Running? && !p.inHandler
    ensures var q := ForkChild(p, eip, esp);
            && q.mode == Running(Context(eip, esp, 0, 0)) && q.memory == p.memory && !q.killed && !q.handled
            && (Delivers(q, Fault(va, false)) <==> Delivers(p, Fault(va, false)))
            && (Delivers(q, Fault(va, false)) ==>
                Step(q, Fault(va, false)).value.mode.ctx.eip == Step(p, Fault(va, false)).value.mode.ctx.eip)
  {
  }

  // ---- What kill answers ----

  /** A kill was sent. */
  ghost predicate Sent(acts: seq<Action>) {
    exists k :: 0 <= k < |acts| && acts[k].Kill?
  }

  /** Marked exactly when sent, and handled only when marked. */
  lemma {:induction false} KilledWhenSent(p: Proc, acts: seq<Action>)
    requires (p.handled ==> p.killed) && Steps(p, acts).Some?
    ensures var q := Steps(p, acts).value;
            (q.killed <==> p.killed || Sent(acts)) && (q.handled ==> q.killed)
    decreases |acts|
  {
    if acts != [] {
      var p' := Step(p, acts[0]).value;
      KilledWhenSent(p', acts[1..]);
      if Sent(acts[1..]) {
        var k :| 0 <= k < |acts[1..]| && acts[1..][k].Kill?;
        assert acts[k + 1].Kill?;
      }
      if k :| 0 <= k < |acts| && acts[k].Kill? {
        assert k > 0 ==> acts[1..][k - 1].Kill?;
      }
    }
  }

  /** In every run of a child from its fork, kill succeeds exactly when no kill was sent before.  It is
      documented to succeed exactly when the child is alive; so it does exactly when a kill was sent to each
      child that has exited and to no other. */
  lemma KillAnswersWhen(p: Proc, eip: int, esp: int, acts: seq<Action>, v: int)
    requires Steps(ForkChild(p, eip, esp), acts).Some?
    ensures var q := Steps(ForkChild(p, eip, esp), acts).value;
            && (KillCall(q, v).1 == 0 <==> !Sent(acts))
            && ((KillCall(q, v).1 == 0 <==> !q.mode.Exited?) <==> (Sent(acts) <==> q.mode.Exited?))
  {
    KilledWhenSent(ForkChild(p, eip, esp), acts);
  }

  /** A child that exited by itself is killed with success. */
  lemma KillOfAnExitedChild(p: Proc, eip: int, esp: int, v: int) returns (q: Proc)
    ensures Steps(ForkChild(p, eip, esp), [ExitCall(0)]) == Some(q) && q.mode.Exited? && KillCall(q, v).1 == 0
  {
    var c := ForkChild(p, eip, esp);
    q := c.(mode := Exited(0));
    assert [ExitCall(0)][1..] == [] && Steps(q, []) == Some(q);
  }

  /** A child that is alive, inside its handler after a kill, is refused. */
  lemma KillOfALiveChild(p: Proc, eip: int, esp: int, handler: int, v: int) returns (q: Proc)
    requires !p.inHandler && handler != 0
    ensures Steps(ForkChild(p, eip, esp), [SetHandler(handler, false), Kill(v), Timer]) == Some(q)
    ensures q.mode.Running? && q.inHandler && KillCall(q, v).1 == -1
  {
    var c := ForkChild(p, eip, esp);
    var acts := [SetHandler(handler, false), Kill(v), Timer];
    var c1 := Step(c, acts[0]).value;
    var c2 := Step(c1, acts[1]).value;
    q := Step(c2, acts[2]).value;
    assert acts[1..] == [Kill(v), Timer] && acts[1..][1..] == [Timer] && acts[1..][1..][1..] == [];
    assert Steps(c2, [Timer]) == Some(q) by { assert Steps(q, []) == Some(q); }
    assert Steps(c1, acts[1..]) == Some(q);
  }

  // ---- The process control block, in place ----

  class Pcb {
    var mode: Mode
    var context: Context
    var inHandler: bool
    var handlerEip: int
    var saved: Context
    var killed: bool
    var killedV: int
    var handled: bool
    var memory: map<int, int>

    ghost function Now(): Proc
      reads this
    {
      Proc(mode, context, inHandler, handlerEip, saved, killed, killedV, handled, memory)
    }

    constructor (eip: int, esp: int)
      ensures Now() == Proc(Running(Context(eip, esp, 0, 0)), Context(0, 0, 0, 0), false, 0,
                             Context(0, 0, 0, 0), false, 0, false, map[])
    {
      mode := Running(Context(eip, esp, 0, 0));
      context := Context(0, 0, 0, 0);
      inHandler := false;
      handlerEip := 0;
      saved := Context(0, 0, 0, 0);
      killed := false;
      killedV := 0;
      handled := false;
      memory := map[];
    }

    method SwitchProcesses(ctx: Context)
      modifies this`mode, this`context
      ensures Now() == SwitchOut(old(Now()), ctx)
    {
      context := ctx;
      mode := Stopped;
    }

    method EnterHandler(ctx: Context, num: int, arg: int)
      modifies this`mode, this`saved, this`inHandler, this`memory
      ensures Now() == Deliver(old(Now()), ctx, num, arg)
    {
      saved := ctx;
      inHandler := true;
      var esp := ctx.esp;
      memory := memory[Below(esp, 132) := arg];
      memory := memory[Below(esp, 136) := num];
      memory := memory[Below(esp, 140) := RETURN_ADDRESS];
      mode := Running(Context(handlerEip, Below(esp, 140), 0, 0));
    }

    method SigReturn(interrupted: bool)
      requires mode.Running?
      modifies this
      ensures Some(Now()) == Step(old(Now()), Action.SigReturn(interrupted))
    {
      var ctx := mode.ctx;
      if !inHandler {
        ctx := ctx.(eax := -1);
        if interrupted {
          SwitchProcesses(ctx);
        } else {
          mode := Running(ctx);
        }
        return;
      }
      inHandler := false;
      SwitchProcesses(saved);
    }

    method PageFault(va: int, inRegion: bool)
      requires mode.Running?
      modifies this
      ensures Some(Now()) == Step(old(Now()), Fault(va, inRegion))
    {
      if inHandler && va == RETURN_ADDRESS {
        SigReturn(false);
      } else if !inRegion {
        if handlerEip == 0 || inHandler {
          mode := Exited(SEGMENTATION_FAULT);
          return;
        }
        EnterHandler(mode.ctx, 1, va);
      }
    }

    method TimerInterrupt()
      requires mode.Running?
      modifies this
      ensures Some(Now()) == Step(old(Now()), Timer)
    {
      if killed && !handled && !inHandler {
        handled := true;
        if handlerEip == 0 {
          mode := Exited(killedV);
        } else {
          EnterHandler(mode.ctx, 2, killedV);
        }
        return;
      }
      SwitchProcesses(mode.ctx);
    }

    method Kill(v: int) returns (r: int)
      modifies this`killed, this`killedV
      ensures (Now(), r) == KillCall(old(Now()), v)
    {
      if killed || handled {
        return -1;
      }
      killed := true;
      killedV := v;
      return 0;
    }
  }
}

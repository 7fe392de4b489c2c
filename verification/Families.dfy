/** Parents and children over every run: the child that join takes is the one forked last. */
module Families {
  import opened Scheduling
  import J = Joining

  /** The process that forks in action a, if one does. */
  function Maker(s: State, a: Action): seq<nat> {
    if a.Sys? && a.call.Fork? && a.c < |s.cores| && s.cores[a.c].User? then [s.cores[a.c].pid] else []
  }

  /** The processes that fork in a run, in order: process q is made by the q-th fork. */
  function Makers(s: State, acts: seq<Action>): seq<nat>
    decreases |acts|
  {
    if acts == [] || Step(s, acts[0]).None? then []
    else Maker(s, acts[0]) + Makers(Step(s, acts[0]).value, acts[1..])
  }

  /** Action a ends a join of process p. */
  predicate EndsJoinOf(s: State, a: Action, p: nat) {
    a.Continue? && a.c < |s.cores| && s.cores[a.c] == Handling(Event(p, [], true))
  }

  /** How many joins of p end in a run. */
  function Joins(s: State, acts: seq<Action>, p: nat): nat
    decreases |acts|
  {
    if acts == [] || Step(s, acts[0]).None? then 0
    else (if EndsJoinOf(s, acts[0], p) then 1 else 0) + Joins(Step(s, acts[0]).value, acts[1..], p)
  }

  /** Process q was made by the q-th fork, and p's children are forks of p, oldest first. */
  ghost predicate Kin(s: State, makers: seq<nat>) {
    && |s.procs| == 1 + |makers|
    && (forall p :: 0 <= p < |s.procs| ==> KinOf(s, makers, p))
  }

  ghost predicate KinOf(s: State, makers: seq<nat>, p: nat)
    requires p < |s.procs|
  {
    var children := s.procs[p].children;
    && (forall k :: 0 <= k < |children| ==> 0 < children[k] <= |makers| && makers[children[k] - 1] == p)
    && (forall k, l :: 0 <= k < l < |children| ==> children[k] < children[l])
  }

  /** What a step does to the children of p. */
  lemma ChildrenStep(s: State, a: Action, p: nat)
    requires Step(s, a).Some? && p < |s.procs|
    ensures var s', children := Step(s, a).value, s.procs[p].children;
            && |s'.procs| == |s.procs| + |Maker(s, a)| && p < |s'.procs|
            && (Maker(s, a) == [p] ==> s'.procs[p].children == children + [|s.procs|])
            && (EndsJoinOf(s, a, p) ==> children != [] && s'.procs[p].children + [children[|children| - 1]] == children)
            && (Maker(s, a) != [p] && !EndsJoinOf(s, a, p) ==> s'.procs[p].children == children)
  {
  }

  lemma NewcomerStep(s: State, a: Action)
    requires Step(s, a).Some? && Maker(s, a) != []
    ensures var s' := Step(s, a).value;
            |s'.procs| == |s.procs| + 1 && s'.procs[|s.procs|].children == []
  {
  }

  lemma KinStep(s: State, a: Action, makers: seq<nat>)
    requires Kin(s, makers) && Step(s, a).Some? && 0 < |s.procs|
    ensures Kin(Step(s, a).value, makers + Maker(s, a))
  {
    var s', now := Step(s, a).value, makers + Maker(s, a);
    ChildrenStep(s, a, 0);
    if Maker(s, a) != [] { NewcomerStep(s, a); }
    forall p | 0 <= p < |s'.procs| ensures KinOf(s', now, p) {
      if p < |s.procs| {
        ChildrenStep(s, a, p);
        assert KinOf(s, makers, p);
        KinOfStep(s, a, makers, p);
      }
    }
  }

  lemma KinOfStep(s: State, a: Action, makers: seq<nat>, p: nat)
    requires Step(s, a).Some? && p < |s.procs| == 1 + |makers| && KinOf(s, makers, p)
    ensures p < |Step(s, a).value.procs| && KinOf(Step(s, a).value, makers + Maker(s, a), p)
  {
    ChildrenStep(s, a, p);
  }

  lemma {:induction false} KinRun(s: State, acts: seq<Action>, makers: seq<nat>)
    requires Kin(s, makers) && Run(s, acts).Some?
    ensures Kin(Run(s, acts).value, makers + Makers(s, acts))
    decreases |acts|
  {
    if acts == [] {
      assert makers + Makers(s, acts) == makers;
    } else {
      KinStep(s, acts[0], makers);
      KinRun(Step(s, acts[0]).value, acts[1..], makers + Maker(s, acts[0]));
      assert makers + Makers(s, acts) == makers + Maker(s, acts[0]) + Makers(Step(s, acts[0]).value, acts[1..]);
    }
  }

  /** In every run: process q was made by the q-th fork, and the youngest child is the one that its parent
      forked last of those it has not joined. */
  lemma EveryFamily(n: nat, acts: seq<Action>)
    requires Run(Boot(n), acts).Some?
    ensures Kin(Run(Boot(n), acts).value, Makers(Boot(n), acts))
  {
    KinRun(Boot(n), acts, []);
    assert [] + Makers(Boot(n), acts) == Makers(Boot(n), acts);
  }

  lemma YoungestIsLast(n: nat, acts: seq<Action>, p: nat, k: nat)
    requires Run(Boot(n), acts).Some? && p < |Run(Boot(n), acts).value.procs|
    requires k < |Run(Boot(n), acts).value.procs[p].children|
    ensures var s, makers := Run(Boot(n), acts).value, Makers(Boot(n), acts);
            var child := s.procs[p].children[k];
            && child <= J.Youngest(s, p) <= |makers| && 0 < child
            && makers[J.Youngest(s, p) - 1] == p == makers[child - 1]
  {
    EveryFamily(n, acts);
    var s := Run(Boot(n), acts).value;
    assert KinOf(s, Makers(Boot(n), acts), p);
  }

  /** A process gains a child with each fork, and loses one with each join that ends. */
  lemma {:induction false} CountRun(s: State, acts: seq<Action>, p: nat)
    requires Run(s, acts).Some? && p < |s.procs|
    ensures var s' := Run(s, acts).value;
            && p < |s'.procs|
            && |s'.procs[p].children| + Joins(s, acts, p) == |s.procs[p].children| + multiset(Makers(s, acts))[p]
    decreases |acts|
  {
    if acts != [] {
      var s1 := Step(s, acts[0]).value;
      ChildrenStep(s, acts[0], p);
      CountRun(s1, acts[1..], p);
      CountNext(s, acts[0], acts[1..], p);
    }
  }

  lemma CountNext(s: State, a: Action, rest: seq<Action>, p: nat)
    requires Step(s, a).Some?
    ensures multiset(Maker(s, a) + Makers(Step(s, a).value, rest))[p]
            == multiset(Makers(Step(s, a).value, rest))[p] + if Maker(s, a) == [p] then 1 else 0
  {
  }
}

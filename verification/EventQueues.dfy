/** The intrusive queue of events and the semaphore, as objects. */
module EventQueues {
  import opened Semaphores

  class Event {
    const id: nat
    var next: Event?

    constructor (id: nat)
      ensures this.id == id && next == null
    {
      this.id := id;
      next := null;
    }
  }

  class Queue {
    var first: Event?
    var last: Event?
    /** The linked events, oldest first. */
    ghost var spine: seq<Event>

    ghost predicate LinkedAt(k: int)
      requires 0 <= k < |spine|
      reads this, spine
    {
      spine[k].next == if k + 1 < |spine| then spine[k + 1] else null
    }

    ghost predicate Valid()
      reads this, spine
    {
      && first == (if spine == [] then null else spine[0])
      && last == (if spine == [] then null else spine[|spine| - 1])
      && (forall k :: 0 <= k < |spine| ==> LinkedAt(k))
      && (forall k, l :: 0 <= k < l < |spine| ==> spine[k] != spine[l])
    }

    ghost function Ids(): seq<nat>
      reads this
    {
      seq(|spine|, k requires 0 <= k < |spine| reads this => spine[k].id)
    }

    constructor ()
      ensures Valid() && spine == []
    {
      first := null;
      last := null;
      spine := [];
    }

    method Add(t: Event)
      requires Valid() && t !in spine
      modifies this, t, if spine == [] then {} else {spine[|spine| - 1]}
      ensures Valid() && spine == old(spine) + [t]
    {
      t.next := null;
      if first == null {
        first := t;
      } else {
        last.next := t;
      }
      last := t;
      spine := spine + [t];
      forall k | 0 <= k < |spine| ensures LinkedAt(k) {
        if k < |spine| - 1 {
          assert old(LinkedAt(k));
        }
      }
    }

    method Remove() returns (t: Event?)
      requires Valid()
      modifies this
      ensures Valid()
      ensures old(spine) == [] ==> t == null && spine == []
      ensures old(spine) != [] ==> t == old(spine)[0] && spine == old(spine)[1..]
    {
      if first == null {
        return null;
      }
      t := first;
      assert t == spine[0] && LinkedAt(0);
      first := t.next;
      if first == null {
        last := null;
      }
      spine := spine[1..];
      forall k | 0 <= k < |spine| ensures LinkedAt(k) {
        assert old(LinkedAt(k + 1));
      }
    }
  }

  class Semaphore {
    var count: nat
    const waiting: Queue

    ghost function Now(): Sem<nat>
      reads this, waiting
    {
      Sem(count, waiting.Ids())
    }

    /** Usable with the given ready queue: both are well linked and share no event. */
    ghost predicate Valid(ready: Queue)
      reads this, waiting, waiting.spine, ready, ready.spine
    {
      && waiting != ready && waiting.Valid() && ready.Valid()
      && (forall k, l :: 0 <= k < |waiting.spine| && 0 <= l < |ready.spine| ==> waiting.spine[k] != ready.spine[l])
      && (count > 0 ==> waiting.spine == [])
    }

    constructor (n: nat, ready: Queue)
      requires ready.Valid()
      ensures Valid(ready) && Now() == Sem(n, []) && fresh(waiting)
    {
      count := n;
      waiting := new Queue();
    }

    /** The event goes to the ready queue when a unit is left, and to the end of the waiting list if not. */
    method Down(e: Event, ready: Queue)
      requires Valid(ready) && e !in waiting.spine && e !in ready.spine
      modifies this, waiting, ready, e, waiting.spine, ready.spine
      ensures Valid(ready) && Now() == Semaphores.Down(old(Now()), e.id).0
      ensures ready.spine == old(ready.spine) + (if Semaphores.Down(old(Now()), e.id).1 then [e] else [])
    {
      if count > 0 {
        count := count - 1;
        ready.Add(e);
      } else {
        waiting.Add(e);
        forall k | 0 <= k < |ready.spine| ensures ready.LinkedAt(k) {
          assert old(ready.LinkedAt(k));
        }
      }
    }

    /** The oldest waiter moves to the ready queue, or a unit is added. */
    method Up(ready: Queue)
      requires Valid(ready)
      modifies this, waiting, ready, waiting.spine, ready.spine
      ensures Valid(ready) && Now() == Semaphores.Up(old(Now()))
      ensures ready.spine == old(ready.spine) + old(if waiting.spine == [] then [] else [waiting.spine[0]])
    {
      var e := waiting.Remove();
      if e != null {
        assert count == 0;
        label removed:
        ready.Add(e);
        forall k | 0 <= k < |waiting.spine| ensures waiting.LinkedAt(k) {
          assert old@removed(waiting.LinkedAt(k));
        }
      } else {
        count := count + 1;
      }
    }

    method AwaitReady(ghost ready: Queue) returns (ok: bool)
      requires Valid(ready)
      modifies this
      ensures Valid(ready) && ok == (old(count) > 0)
      ensures Now() == old(Now()).(count := old(count) - (if ok then 1 else 0))
    {
      if count > 0 {
        count := count - 1;
        return true;
      }
      return false;
    }
  }
}

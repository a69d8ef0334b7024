/** The round-robin scheduler of kernel/sched.c: a ring of threads linked by `next`, rotated and spliced in
    place, and how long a thread can wait in it. */
module Sched {

  // ---------------------------------------------------------------- the ring as a sequence

  /** `current` first, then the threads in the order they would be reached. */
  type Ring<T> = seq<T>

  datatype Event<T> = Yield | Create(t: T) | Exit

  function Apply<T>(r: Ring<T>, e: Event<T>): Ring<T>
    requires r != []
  {
    match e
    case Yield => r[1..] + [r[0]]
    case Create(t) => [r[0], t] + r[1..]
    case Exit => if |r| == 1 then r else r[1..]
  }

  function Run<T>(r: Ring<T>, events: seq<Event<T>>): Ring<T>
    requires r != []
    ensures Run(r, events) != []
    decreases |events|
  {
    if events == [] then r else Run(Apply(r, events[0]), events[1..])
  }

  ghost predicate Distinct<T>(r: seq<T>) {
    forall i, j :: 0 <= i < j < |r| ==> r[i] != r[j]
  }

  function Creates<T>(events: seq<Event<T>>): nat {
    if events == [] then 0 else (if events[0].Create? then 1 else 0) + Creates(events[1..])
  }

  /** Switches away from the current thread. */
  function Switches<T>(events: seq<Event<T>>): nat {
    if events == [] then 0 else (if events[0].Create? then 0 else 1) + Switches(events[1..])
  }

  /** A yield or exit by another thread brings the thread at distance d one step closer, a create puts it
      at most one further away. */
  lemma OneStep<T>(r: Ring<T>, d: nat, e: Event<T>)
    requires 0 < d < |r|
    ensures match e
            case Create(_) => d + 1 < |Apply(r, e)| && Apply(r, e)[d + 1] == r[d]
            case _ => d - 1 < |Apply(r, e)| && Apply(r, e)[d - 1] == r[d]
  {
  }

  /** A yield keeps all threads and puts the current one last, a create adds one behind the current one, an exit
      removes the current one alone. */
  lemma Members<T>(r: Ring<T>, e: Event<T>)
    requires r != []
    ensures match e
            case Yield => multiset(Apply(r, e)) == multiset(r) && Apply(r, e)[|r| - 1] == r[0]
            case Create(t) => multiset(Apply(r, e)) == multiset(r) + multiset{t} && Apply(r, e)[..2] == [r[0], t]
            case Exit => |r| > 1 ==> multiset(Apply(r, e)) + multiset{r[0]} == multiset(r)
  {
    assert r == [r[0]] + r[1..];
  }

  /** Bounded waiting: once the switches made outnumber a thread's distance plus the threads created
      meanwhile, that thread has been the current one. */
  lemma {:induction false} WaitIsBounded<T>(r: Ring<T>, d: nat, events: seq<Event<T>>) returns (k: nat)
    requires d < |r| && Switches(events) >= d + Creates(events)
    ensures k <= |events| && Run(r, events[..k])[0] == r[d]
    decreases |events|
  {
    if d == 0 {
      k := 0;
    } else {
      var e := events[0];
      OneStep(r, d, e);
      var l := WaitIsBounded(Apply(r, e), if e.Create? then d + 1 else d - 1, events[1..]);
      k := l + 1;
      assert events[..k][0] == e && events[..k][1..] == events[1..][..l];
    }
  }

  // ---------------------------------------------------------------- the ring in memory

  class Thread {
    const id: nat
    var next: Thread

    /** A thread alone in a ring of its own. */
    constructor (id: nat)
      ensures this.id == id && next == this
    {
      this.id := id;
      next := this;
    }
  }

  class Scheduler {
    var current: Thread
    var nextId: nat
    ghost var ring: seq<Thread>

    /** The next-pointers form one cycle through exactly the threads of `ring`. */
    ghost predicate Valid()
      reads this, ring
    {
      && ring != [] && ring[0] == current && Distinct(ring)
      && (forall i :: 0 <= i < |ring| - 1 ==> ring[i].next == ring[i + 1])
      && ring[|ring| - 1].next == ring[0]
    }

    /** sched_init: the running context becomes thread 0. */
    constructor ()
      ensures Valid() && fresh(current) && ring == [current] && current.id == 0 && nextId == 1
    {
      var t := new Thread(0);
      current := t;
      nextId := 1;
      ring := [t];
    }

    method ThreadCreate() returns (t: Thread)
      requires Valid()
      modifies this`nextId, this`ring, current`next
      ensures Valid() && fresh(t) && t.id == old(nextId)
      ensures ring == Apply(old(ring), Create(t)) && current == old(current)
    {
      t := new Thread(nextId);
      nextId := nextId + 1;
      t.next := current.next;
      current.next := t;
      ring := [ring[0], t] + ring[1..];
    }

    method Yield()
      requires Valid()
      modifies this`current, this`ring
      ensures Valid() && ring == Apply(old(ring), Event.Yield)
    {
      if current.next != current {
        current := current.next;
      }
      ring := ring[1..] + [ring[0]];
    }

    /** thread_exit. The last thread left cannot leave: it stays the current one. */
    method ThreadExit()
      requires Valid()
      modifies this`current, this`ring, ring
      ensures Valid() && ring == Apply(old(ring), Exit)
      ensures |old(ring)| > 1 ==> old(current) !in ring
    {
      var dead := current;
      var p := dead;
      ghost var i := 0;
      while p.next != dead
        invariant 0 <= i < |ring| && p == ring[i]
        invariant i < |ring| - 1 ==> p.next == ring[i + 1] && ring[i + 1] != dead
        decreases |ring| - i
      {
        p := p.next;
        i := i + 1;
      }
      assert i == |ring| - 1;
      p.next := dead.next;
      current := dead.next;
      ring := if |ring| == 1 then ring else ring[1..];
    }
  }
}

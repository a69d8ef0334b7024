/** The buffer pool of arch/aarch64/drivers/virtio_input.c over the queue: seed_queue and poll_event as
    program counters, stepping in any interleaving with the device. */
module VirtioInput {
  import opened Virtqueue

  datatype Event = Event(kind: nat, code: nat, value: nat)

  /** Where the driver is: publishing the initial buffers, between polls, or inside poll_event. */
  datatype Pc =
    | Seeding(i: nat) | SeedSlot(i: nat)
    | Idle | Ready | Got(id: nat) | Copied(id: nat) | Wrote(id: nat)

  /** Buffer i is the one descriptor i points to. `filled` logs what each completed buffer held when it was
      completed, `delivered` what poll_event has returned. */
  datatype Input = Input(q: Queue, bufs: seq<Event>, pc: Pc, filled: seq<Event>, delivered: seq<Event>)

  datatype Step = Driver | DeviceFetch | DeviceFill(id: nat, e: Event) | DeviceComplete(id: nat, len: nat)

  /** A conforming device fetches what is available and writes only buffers it holds. */
  predicate StepEnabled(s: Input, step: Step) {
    match step
    case Driver => true
    case DeviceFetch => CanFetch(s.q)
    case DeviceFill(id, _) => id in s.q.inflight
    case DeviceComplete(id, _) => id in s.q.inflight
  }

  function Exec(s: Input, step: Step): Input
    requires |s.q.availRing| == QUEUE_SIZE && |s.q.usedRing| == QUEUE_SIZE && |s.bufs| == QUEUE_SIZE
    requires s.pc.SeedSlot? || s.pc.Wrote? ==> s.q.pending.Slot?
  {
    match step
    case DeviceFetch => s.(q := Fetch(s.q))
    case DeviceFill(id, e) => if id < QUEUE_SIZE then s.(bufs := s.bufs[id := e]) else s
    case DeviceComplete(id, len) =>
      if id < QUEUE_SIZE then s.(q := Complete(s.q, Elem(id, len)), filled := s.filled + [s.bufs[id]]) else s
    case Driver =>
      match s.pc
      case Seeding(i) =>
        if i < QUEUE_SIZE then s.(q := WriteSlot(s.q, i), pc := SeedSlot(i)) else s.(pc := Idle)
      case SeedSlot(i) => s.(q := BumpIndex(s.q), pc := Seeding(i + 1))
      case Idle => if HasUsed(s.q) then s.(pc := Ready) else s
      case Ready => s.(q := TakeUsed(s.q), pc := Got(NextUsed(s.q).id))
      case Got(id) =>
        s.(delivered := s.delivered + [if id < QUEUE_SIZE then s.bufs[id] else Event(0, 0, 0)], pc := Copied(id))
      case Copied(id) => s.(q := WriteSlot(s.q, id), pc := Wrote(id))
      case Wrote(id) => s.(q := BumpIndex(s.q), pc := Idle)
  }

  /** The heads in the driver's hands at each point of its code. */
  function HeldAt(pc: Pc): set<nat> {
    match pc
    case Seeding(i) => Heads(i)
    case SeedSlot(i) => Heads(i)
    case Idle => {}
    case Ready => {}
    case Got(id) => {id}
    case Copied(id) => {id}
    case Wrote(id) => {id}
  }

  ghost predicate InputOk(s: Input) {
    && QueueOk(s.q, Heads(0)) && |s.bufs| == QUEUE_SIZE
    && s.q.held == HeldAt(s.pc)
    && s.q.pending == (if s.pc.SeedSlot? then Slot(s.pc.i) else if s.pc.Wrote? then Slot(s.pc.id) else Nothing)
    && (s.pc.Seeding? || s.pc.SeedSlot? ==> s.pc.i <= QUEUE_SIZE) && (s.pc.SeedSlot? ==> s.pc.i < QUEUE_SIZE)
    && (s.pc.Ready? ==> HasUsed(s.q))
    && |s.filled| == |s.q.log.completed|
    && (forall k :: s.q.log.seen <= k < |s.filled| ==>
          s.q.log.completed[k].id < QUEUE_SIZE && s.bufs[s.q.log.completed[k].id] == s.filled[k])
    && s.q.log.seen == |s.delivered| + (if s.pc.Got? then 1 else 0)
    && s.delivered == s.filled[..|s.delivered|]
    && (s.pc.Got? ==> s.pc.id < QUEUE_SIZE && s.bufs[s.pc.id] == s.filled[s.q.log.seen - 1])
  }

  /** A head the device holds is neither used nor the driver's, and names a buffer. */
  lemma InflightAlone(q: Queue, id: nat)
    requires QueueOk(q, Heads(0)) && id in q.inflight
    ensures id < QUEUE_SIZE && id !in q.held
    ensures forall k :: q.log.seen <= k < |q.log.completed| ==> q.log.completed[k].id != id
  {
    assert multiset(Heads(0))[id] <= 1 && multiset(q.inflight)[id] == 1;
    assert id in multiset(Heads(0));
    forall k | q.log.seen <= k < |q.log.completed|
      ensures q.log.completed[k].id != id
    {
      IdsAt(q.log.completed[q.log.seen..], k - q.log.seen);
    }
  }

  lemma {:induction false} IdsAt(es: seq<Elem>, k: nat)
    requires k < |es|
    ensures es[k].id in Ids(es)
    decreases |es|
  {
    if k < |es| - 1 {
      IdsAt(es[..|es| - 1], k);
    }
  }

  lemma DriverKeeps(s: Input)
    requires InputOk(s)
    ensures InputOk(Exec(s, Driver))
  {
    hide InputOk, Exec;
    match s.pc
    case Seeding(i) => SeedKeeps(s);
    case SeedSlot(i) => SeedKeeps(s);
    case Idle => PollKeeps(s);
    case Ready => PollKeeps(s);
    case _ => RecycleKeeps(s);
  }

  lemma SeedKeeps(s: Input)
    requires InputOk(s) && (s.pc.Seeding? || s.pc.SeedSlot?)
    ensures InputOk(Exec(s, Driver))
  {
    hide Partition;
    if s.pc.SeedSlot? {
      BumpIndexKeeps(s.q, Heads(0));
    } else if s.pc.i < QUEUE_SIZE {
      WriteSlotKeeps(s.q, Heads(0), s.pc.i);
    }
  }

  lemma PollKeeps(s: Input)
    requires InputOk(s) && (s.pc.Idle? || s.pc.Ready?)
    ensures InputOk(Exec(s, Driver))
  {
    hide Partition, Heads;
    TakeUsedKeeps(s.q, Heads(0));
  }

  lemma RecycleKeeps(s: Input)
    requires InputOk(s) && (s.pc.Got? || s.pc.Copied? || s.pc.Wrote?)
    ensures InputOk(Exec(s, Driver))
  {
    hide Partition, Heads;
    match s.pc
    case Copied(id) => WriteSlotKeeps(s.q, Heads(0), id);
    case Wrote(id) => BumpIndexKeeps(s.q, Heads(0));
    case _ =>
  }

  lemma FetchKeepsInput(s: Input)
    requires InputOk(s) && CanFetch(s.q)
    ensures InputOk(Exec(s, DeviceFetch))
  {
    hide Partition;
    FetchKeeps(s.q, Heads(0));
  }

  lemma FillKeepsInput(s: Input, id: nat, e: Event)
    requires InputOk(s) && id in s.q.inflight
    ensures InputOk(Exec(s, DeviceFill(id, e)))
  {
    hide QueueOk;
    InflightAlone(s.q, id);
  }

  lemma CompleteKeepsInput(s: Input, id: nat, len: nat)
    requires InputOk(s) && id in s.q.inflight
    ensures InputOk(Exec(s, DeviceComplete(id, len)))
  {
    hide Partition;
    InflightAlone(s.q, id);
    CompleteKeeps(s.q, Heads(0), Elem(id, len));
    if s.pc.Ready? {
      StillReady(s.q, Elem(id, len));
    }
  }

  /** A completion cannot make the driver's pending element disappear. */
  lemma StillReady(q: Queue, e: Elem)
    requires QueueOk(q, Heads(0)) && e.id in q.inflight && HasUsed(q)
    ensures HasUsed(Complete(q, e))
  {
    CompleteKeeps(q, Heads(0), e);
    TakeUsedKeeps(q, Heads(0));
    TakeUsedKeeps(Complete(q, e), Heads(0));
  }

  lemma DeviceKeeps(s: Input, step: Step)
    requires InputOk(s) && StepEnabled(s, step) && step != Driver
    ensures InputOk(Exec(s, step))
  {
    hide InputOk;
    match step
    case DeviceFetch => FetchKeepsInput(s);
    case DeviceFill(id, e) => FillKeepsInput(s, id, e);
    case DeviceComplete(id, len) => CompleteKeepsInput(s, id, len);
  }

  // ---------------------------------------------------------------- runs

  ghost predicate Reaches(s: Input, steps: seq<Step>, t: Input)
    requires InputOk(s)
    decreases |steps|
  {
    if steps == [] then t == s
    else
      StepEnabled(s, steps[0])
      && (if steps[0] == Driver then DriverKeeps(s); Reaches(Exec(s, Driver), steps[1..], t)
          else DeviceKeeps(s, steps[0]); Reaches(Exec(s, steps[0]), steps[1..], t))
  }

  function Start(bufs: seq<Event>): Input {
    Input(Fresh(Heads(0)), bufs, Seeding(0), [], [])
  }

  lemma StartOk(bufs: seq<Event>)
    requires |bufs| == QUEUE_SIZE
    ensures InputOk(Start(bufs))
  {
    assert Heads(0) == AllHeads() && |AllHeads()| == QUEUE_SIZE;
    FreshOk(Heads(0));
  }

  /** Under every interleaving with a conforming device: the events poll_event has returned are exactly the
      contents the device completed its buffers with, in completion order, none lost, repeated or torn, as
      far as the driver has read; and outside poll_event every buffer is with the device or waiting used. */
  lemma {:induction false} EventsInOrder(s: Input, steps: seq<Step>, t: Input)
    requires InputOk(s) && Reaches(s, steps, t)
    ensures InputOk(t) && t.delivered <= t.filled
    ensures |t.delivered| <= t.q.log.seen <= |t.delivered| + 1
    ensures t.pc == Idle ==> |t.delivered| == t.q.log.seen && t.q.held == {} && |t.q.log.published| - t.q.log.seen == QUEUE_SIZE
    decreases |steps|
  {
    if steps == [] {
      Outstanding(t.q, Heads(0));
      assert Heads(0) == AllHeads() && |AllHeads()| == QUEUE_SIZE;
    } else if steps[0] == Driver {
      DriverKeeps(s);
      EventsInOrder(Exec(s, Driver), steps[1..], t);
    } else {
      DeviceKeeps(s, steps[0]);
      EventsInOrder(Exec(s, steps[0]), steps[1..], t);
    }
  }

  // ---------------------------------------------------------------- progress

  function Drivers(steps: seq<Step>): nat {
    if steps == [] then 0 else (if steps[0] == Driver then 1 else 0) + Drivers(steps[1..])
  }

  /** One step of either side, with what it keeps. */
  function Next(s: Input, step: Step): Input
    requires InputOk(s)
  {
    if StepEnabled(s, step) then Exec(s, step) else s
  }

  lemma NextOk(s: Input, step: Step)
    requires InputOk(s)
    ensures InputOk(Next(s, step))
  {
    hide InputOk;
    if step == Driver { DriverKeeps(s); } else if StepEnabled(s, step) { DeviceKeeps(s, step); }
  }

  lemma ReachesNext(s: Input, steps: seq<Step>, t: Input)
    requires InputOk(s) && Reaches(s, steps, t) && steps != []
    ensures InputOk(Next(s, steps[0])) && StepEnabled(s, steps[0]) && Reaches(Next(s, steps[0]), steps[1..], t)
  {
    NextOk(s, steps[0]);
  }

  /** How far the driver's code has come: five steps for an event returned, seventeen for seeding the queue. */
  function Progressed(s: Input): int {
    5 * |s.delivered| + match s.pc
                        case Seeding(i) => 2 * i - 17
                        case SeedSlot(i) => 2 * i - 16
                        case Idle => 0
                        case Ready => 1
                        case Got(_) => 2
                        case Copied(_) => -2
                        case Wrote(_) => -1
  }

  /** Nothing is left to take: everything completed has been returned. */
  lemma AllDelivered(s: Input)
    requires InputOk(s) && s.pc == Idle && !HasUsed(s.q)
    ensures s.delivered == s.filled
  {
    TakeUsedKeeps(s.q, Heads(0));
  }

  /** A step of the driver takes its code one step further, unless it waits with nothing to take. */
  lemma StepProgress(s: Input, step: Step)
    requires InputOk(s) && StepEnabled(s, step)
    ensures var t := Next(s, step);
            && s.filled <= t.filled
            && (step != Driver ==> Progressed(t) == Progressed(s))
            && (step == Driver ==> Progressed(t) == Progressed(s) + 1 || (t == s && s.pc == Idle && s.delivered == s.filled))
  {
    hide QueueOk;
    if step == Driver && s.pc == Idle && !HasUsed(s.q) {
      AllDelivered(s);
    }
  }

  lemma {:induction false} RunProgress(s: Input, steps: seq<Step>, t: Input, n: nat)
    requires InputOk(s) && Reaches(s, steps, t) && n <= |s.filled|
    ensures Progressed(t) >= 5 * n || Progressed(t) >= Progressed(s) + Drivers(steps)
    decreases |steps|
  {
    hide InputOk, Next, StepEnabled;
    if steps == [] {
      ReachesNothing(s, t);
    } else {
      ReachesNext(s, steps, t);
      StepProgress(s, steps[0]);
      RunProgress(Next(s, steps[0]), steps[1..], t, n);
    }
  }

  lemma ReachesNothing(s: Input, t: Input)
    requires InputOk(s) && Reaches(s, [], t)
    ensures t == s
  {
  }

  /** Whatever the device does in between: five driver steps for every event still to return are enough to return
      the first n completed, from the moment they are completed. From the start, seeding takes seventeen more. */
  lemma EnoughSteps(s: Input, steps: seq<Step>, t: Input, n: nat)
    requires InputOk(s) && Reaches(s, steps, t) && n <= |s.filled| && Progressed(s) + Drivers(steps) >= 5 * n
    ensures |t.delivered| >= n
  {
    hide InputOk, Reaches, Drivers;
    RunProgress(s, steps, t, n);
    EndsOk(s, steps, t);
    SeedBound(t);
  }

  lemma {:induction false} EndsOk(s: Input, steps: seq<Step>, t: Input)
    requires InputOk(s) && Reaches(s, steps, t)
    ensures InputOk(t)
    decreases |steps|
  {
    hide InputOk, Next, StepEnabled;
    if steps == [] {
      ReachesNothing(s, t);
    } else {
      ReachesNext(s, steps, t);
      EndsOk(Next(s, steps[0]), steps[1..], t);
    }
  }

  lemma SeedBound(s: Input)
    requires InputOk(s)
    ensures Progressed(s) <= 5 * |s.delivered| + 2
  {
  }

  /** seed_queue ends: after seventeen driver steps from the start the driver polls. */
  lemma SeedingEnds(bufs: seq<Event>, steps: seq<Step>, t: Input)
    requires |bufs| == QUEUE_SIZE && InputOk(Start(bufs)) && Reaches(Start(bufs), steps, t) && Drivers(steps) >= 17
    ensures !t.pc.Seeding? && !t.pc.SeedSlot?
  {
    hide InputOk, Reaches, Drivers;
    RunProgress(Start(bufs), steps, t, 0);
    EndsOk(Start(bufs), steps, t);
    NoneWhileSeeding(Start(bufs), steps, t);
  }

  /** While it seeds the queue the driver returns nothing. */
  lemma {:induction false} NoneWhileSeeding(s: Input, steps: seq<Step>, t: Input)
    requires InputOk(s) && Reaches(s, steps, t) && (s.pc.Seeding? || s.pc.SeedSlot? ==> s.delivered == [])
    ensures t.pc.Seeding? || t.pc.SeedSlot? ==> t.delivered == [] && Progressed(t) < 0
    decreases |steps|
  {
    hide Reaches;
    if steps == [] {
      ReachesNothing(s, t);
    } else {
      ReachesNext(s, steps, t);
      StaysUnseeded(s, steps[0]);
      NoneWhileSeeding(Next(s, steps[0]), steps[1..], t);
    }
  }

  lemma StaysUnseeded(s: Input, step: Step)
    requires InputOk(s) && (s.pc.Seeding? || s.pc.SeedSlot? ==> s.delivered == [])
    ensures var t := Next(s, step); t.pc.Seeding? || t.pc.SeedSlot? ==> t.delivered == []
  {
  }

  // ---------------------------------------------------------------- one call of poll_event

  /** j driver steps into returning the oldest completion not yet returned in s0. */
  ghost predicate Returning(s0: Input, s: Input, j: nat)
    requires |s0.delivered| < |s0.filled| == |s0.q.log.completed|
  {
    var n := |s0.delivered|;
    var head := s0.q.log.completed[n].id;
    && InputOk(s) && s0.filled <= s.filled && s0.q.log.completed <= s.q.log.completed
    && s.delivered == s0.delivered + (if j >= 3 then [s0.filled[n]] else [])
    && s.q.log.published == s0.q.log.published + (if j >= 5 then [head] else [])
    && s.pc == (if j == 0 then Idle else if j == 1 then Ready else if j == 2 then Got(head) else if j == 3 then Copied(head)
                else if j == 4 then Wrote(head) else Idle)
  }

  lemma DeviceWaits(s0: Input, s: Input, j: nat, step: Step)
    requires |s0.delivered| < |s0.filled| == |s0.q.log.completed| && Returning(s0, s, j) && j <= 5
    requires step != Driver && StepEnabled(s, step)
    ensures Returning(s0, Next(s, step), j)
  {
    hide InputOk, QueueOk, Fetch, Complete, CanFetch;
    NextOk(s, step);
    DeviceSpares(s, step);
  }

  /** A step of the device only adds to the logs, and leaves what the driver has done and where it is. */
  lemma DeviceSpares(s: Input, step: Step)
    requires InputOk(s) && StepEnabled(s, step) && step != Driver
    ensures var t := Next(s, step);
            && s.filled <= t.filled && s.q.log.completed <= t.q.log.completed
            && t.delivered == s.delivered && t.pc == s.pc && t.q.log.published == s.q.log.published
  {
    hide QueueOk;
  }

  lemma DriverReturns(s0: Input, s: Input, j: nat)
    requires |s0.delivered| < |s0.filled| == |s0.q.log.completed| && Returning(s0, s, j) && j < 5
    ensures Returning(s0, Next(s, Driver), j + 1)
  {
    hide QueueOk;
    NextOk(s, Driver);
    UsedIs(s);
  }

  /** What the driver's test and its next read say of the log. */
  lemma UsedIs(s: Input)
    requires InputOk(s)
    ensures HasUsed(s.q) <==> s.q.log.seen < |s.q.log.completed|
    ensures HasUsed(s.q) ==> NextUsed(s.q) == s.q.log.completed[s.q.log.seen]
  {
    TakeUsedKeeps(s.q, Heads(0));
  }

  lemma {:induction false} ReturningRun(s0: Input, s: Input, j: nat, steps: seq<Step>, t: Input)
    requires |s0.delivered| < |s0.filled| == |s0.q.log.completed| && Returning(s0, s, j) && j <= 5
    requires Reaches(s, steps, t) && Drivers(steps) == 5 - j
    ensures Returning(s0, t, 5)
    decreases |steps|
  {
    hide InputOk, Next, StepEnabled;
    if steps == [] {
      ReachesNothing(s, t);
    } else {
      ReachesNext(s, steps, t);
      if steps[0] == Driver {
        DriverReturns(s0, s, j);
        ReturningRun(s0, Next(s, Driver), j + 1, steps[1..], t);
      } else {
        DeviceWaits(s0, s, j, steps[0]);
        ReturningRun(s0, Next(s, steps[0]), j, steps[1..], t);
      }
    }
  }

  /** poll_event with something to take, under any interleaving: its five steps return exactly the oldest
      completed event not yet returned and publish that event's buffer again. */
  lemma OneEvent(s: Input, steps: seq<Step>, t: Input)
    requires InputOk(s) && s.pc == Idle && HasUsed(s.q) && Reaches(s, steps, t) && Drivers(steps) == 5
    ensures |s.delivered| < |s.filled| && |s.delivered| < |s.q.log.completed|
    ensures t.pc == Idle && t.delivered == s.delivered + [s.filled[|s.delivered|]]
    ensures t.q.log.published == s.q.log.published + [s.q.log.completed[|s.delivered|].id]
  {
    hide Reaches, Drivers, QueueOk;
    UsedIs(s);
    ReturningRun(s, s, 0, steps, t);
  }
}

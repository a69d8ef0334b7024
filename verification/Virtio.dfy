/** virtio.c as it runs: publish, virtio_poll_used and virtio_submit_and_wait on the rings in memory. The
    device's steps arrive while the driver polls. */
module Virtio {
  import opened Virtqueue

  /** A descriptor-table entry. */
  datatype Desc = Desc(addr: nat, len: nat, flags: bv16, next: nat)

  const F_NEXT: bv16 := 1    // VIRTQ_DESC_F_NEXT
  const F_WRITE: bv16 := 2   // VIRTQ_DESC_F_WRITE

  predicate HasNext(flags: bv16) {
    flags & F_NEXT != 0
  }

  function WithNext(flags: bv16): bv16 {
    flags | F_NEXT
  }

  // ---------------------------------------------------------------- descriptor chains

  /** What virtio_submit_and_wait writes at position i for a request of descs. */
  function Link(descs: seq<Desc>, i: nat): Desc
    requires i < |descs|
  {
    var more := i + 1 < |descs|;
    Desc(descs[i].addr, descs[i].len, if more then WithNext(descs[i].flags) else descs[i].flags, if more then i + 1 else 0)
  }

  /** The chain as the device follows it from head, through NEXT flags, at most `fuel` entries. */
  function Chain(table: seq<Desc>, head: nat, fuel: nat): seq<Desc>
    decreases fuel
  {
    if fuel == 0 || head >= |table| then []
    else if !HasNext(table[head].flags) then [table[head]]
    else [table[head]] + Chain(table, table[head].next, fuel - 1)
  }

  /** Entry e carries buffer d of a request: its address and length, its flags but for NEXT. */
  predicate Carries(e: Desc, d: Desc) {
    e.addr == d.addr && e.len == d.len && e.flags & 0xFFFE == d.flags & 0xFFFE
  }

  /** The table holds the request from entry 0 on: every buffer, chained to the one behind it. */
  ghost predicate HoldsRequest(table: seq<Desc>, descs: seq<Desc>) {
    |descs| <= |table| && forall k: nat :: k < |descs| ==>
      Carries(table[k], descs[k])
      && (if k + 1 < |descs| then table[k].flags & 1 == 1 && table[k].next == k + 1 else table[k].flags == descs[k].flags)
  }

  /** From entry i the device follows exactly the rest of the request, buffer by buffer and in order,
      however much further it would be willing to go. */
  lemma {:induction false} ChainIsRequest(table: seq<Desc>, descs: seq<Desc>, i: nat, fuel: nat)
    requires HoldsRequest(table, descs) && i < |descs| && fuel >= |descs| - i
    requires descs[|descs| - 1].flags & 1 == 0
    ensures var c := Chain(table, i, fuel);
            |c| == |descs| - i && forall k: nat :: k < |c| ==> Carries(c[k], descs[i + k])
    decreases |descs| - i
  {
    hide HasNext, Carries;
    NextBit(table[i].flags);
    NextBit(descs[|descs| - 1].flags);
    assert Carries(table[i], descs[i]);
    if i + 1 < |descs| {
      ChainIsRequest(table, descs, i + 1, fuel - 1);
    }
  }

  lemma NextBit(flags: bv16)
    ensures HasNext(flags) <==> flags & 1 == 1
    ensures flags & 1 == 0 || flags & 1 == 1
  {
  }

  /** What is written at position i carries buffer i and chains it. */
  lemma LinkCarries(descs: seq<Desc>, i: nat)
    requires i < |descs|
    ensures Carries(Link(descs, i), descs[i])
    ensures if i + 1 < |descs| then Link(descs, i).flags & 1 == 1 && Link(descs, i).next == i + 1
            else Link(descs, i).flags == descs[i].flags
  {
  }

  lemma RequestSeen(table: seq<Desc>, descs: seq<Desc>)
    requires HoldsRequest(table, descs) && |descs| > 0 && descs[|descs| - 1].flags & 1 == 0
    ensures DeviceSees(table, descs)
  {
    hide HoldsRequest;
    HoldsFits(table, descs);
    ChainIsRequest(table, descs, 0, |table|);
  }

  lemma HoldsFits(table: seq<Desc>, descs: seq<Desc>)
    requires HoldsRequest(table, descs)
    ensures |descs| <= |table|
  {
  }

  /** Flags that agree but for NEXT agree on WRITE. */
  lemma WriteBit(f: bv16, g: bv16)
    requires f & 0xFFFE == g & 0xFFFE
    ensures f & 2 == g & 2
  {
    assert f & 2 == (f & 0xFFFE) & 2 && g & 2 == (g & 0xFFFE) & 2;
  }

  /** What the device finds at head 0 of a request's table. */
  ghost predicate DeviceSees(table: seq<Desc>, descs: seq<Desc>) {
    var c := Chain(table, 0, |table|);
    |c| == |descs| && forall k: nat :: k < |c| ==> Carries(c[k], descs[k])
  }

  // ---------------------------------------------------------------- the device while the driver polls

  /** One device step, if the device can take it. */
  datatype DeviceStep = DoFetch | DoComplete(e: Elem)

  function DeviceExec(q: Queue, step: DeviceStep): Queue
    requires |q.availRing| == QUEUE_SIZE && |q.usedRing| == QUEUE_SIZE
  {
    match step
    case DoFetch => if CanFetch(q) then Fetch(q) else q
    case DoComplete(e) => if e.id in q.inflight then Complete(q, e) else q
  }

  function DeviceRun(q: Queue, steps: seq<DeviceStep>): Queue
    requires |q.availRing| == QUEUE_SIZE && |q.usedRing| == QUEUE_SIZE
    decreases |steps|
  {
    if steps == [] then q else DeviceRun(DeviceExec(q, steps[0]), steps[1..])
  }

  /** The one request of a queue whose only head is 0: published, perhaps fetched, perhaps completed. */
  ghost predicate OneRequest(q: Queue, log: Log) {
    && QueueOk(q, {0}) && q.held == {} && q.pending == Nothing
    && log.seen == |log.completed| == log.fetched == |log.published|
    && q.log.published == log.published + [0] && q.log.seen == log.seen
    && (q.log.completed == log.completed
        || (|q.log.completed| == |log.completed| + 1 && q.log.completed[..|log.completed|] == log.completed
            && q.log.completed[|log.completed|].id == 0))
  }

  lemma DeviceStepKeeps(q: Queue, log: Log, step: DeviceStep)
    requires OneRequest(q, log)
    ensures OneRequest(DeviceExec(q, step), log)
  {
    hide Partition;
    match step
    case DoFetch => if CanFetch(q) { FetchKeeps(q, {0}); }
    case DoComplete(e) =>
      if e.id in q.inflight {
        OnlyZero(q, e.id);
        CompleteKeeps(q, {0}, e);
      }
  }

  lemma OnlyZero(q: Queue, id: nat)
    requires QueueOk(q, {0}) && id in q.inflight
    ensures id == 0
  {
    assert id in multiset({0});
  }

  lemma RequestPublished(q: Queue)
    requires QueueOk(q, {0}) && q.held == {0} && q.pending == Nothing
    ensures CanWriteSlot(q, 0) && OneRequest(BumpIndex(WriteSlot(q, 0)), q.log)
  {
    hide Partition;
    IdleQueue(q);
    WriteSlotKeeps(q, {0}, 0);
    BumpIndexKeeps(WriteSlot(q, 0), {0});
  }

  lemma RequestTaken(q: Queue, log: Log)
    requires OneRequest(q, log) && HasUsed(q)
    ensures var t := TakeUsed(q);
            && QueueOk(t, {0}) && t.held == {0} && t.pending == Nothing
            && t.log.published == log.published + [0] && t.log.completed == log.completed + [Elem(0, NextUsed(q).len)]
            && t.log.seen == |t.log.completed| == t.log.fetched == |t.log.published|
  {
    hide Partition;
    TakeUsedKeeps(q, {0});
    IdleQueue(TakeUsed(q));
  }

  class VirtioDevice {
    var desc: array<Desc>
    var availRing: array<nat>
    var availIdx: nat
    var usedRing: array<Elem>
    var usedIdx: nat
    var usedSeen: nat
    ghost var pending: Pending
    ghost var held: set<nat>
    var lastAvail: nat          // the device's own
    var inflight: set<nat>      // the device's own
    ghost var log: Log

    ghost predicate Valid()
      reads this
    {
      && desc.Length >= QUEUE_SIZE && availRing.Length == QUEUE_SIZE && usedRing.Length == QUEUE_SIZE
    }

    ghost function State(): Queue
      reads this, availRing, usedRing
    {
      Queue(availRing[..], availIdx, usedRing[..], usedIdx, usedSeen, pending, held, lastAvail, inflight, log)
    }

    method Publish(descIndex: nat)
      requires Valid() && CanWriteSlot(State(), descIndex)
      modifies availRing, `availIdx, `held, `log
      ensures Valid() && State() == BumpIndex(WriteSlot(old(State()), descIndex))
    {
      var slot := availIdx % QUEUE_SIZE;
      availRing[slot] := descIndex;
      availIdx := (availIdx + 1) % U16;
      held := held - {descIndex};
      log := log.(published := log.published + [descIndex]);
    }

    method PollUsed() returns (ok: bool, descIndex: nat, len: nat)
      requires Valid()
      modifies `usedSeen, `held, `log
      ensures Valid() && ok == HasUsed(old(State()))
      ensures State() == if ok then TakeUsed(old(State())) else old(State())
      ensures ok ==> Elem(descIndex, len) == NextUsed(old(State()))
    {
      if usedIdx == usedSeen {
        return false, 0, 0;
      }
      var e := usedRing[usedSeen % QUEUE_SIZE];
      usedSeen := (usedSeen + 1) % U16;
      held := held + {e.id};
      log := log.(seen := log.seen + 1);
      return true, e.id, e.len;
    }

    /** The descriptor-filling loop of virtio_submit_and_wait. */
    method FillChain(descs: seq<Desc>)
      requires Valid() && |descs| <= QUEUE_SIZE
      modifies desc
      ensures HoldsRequest(desc[..], descs)
      ensures forall k: nat :: |descs| <= k < desc.Length ==> desc[k] == old(desc[k])
    {
      hide WithNext;
      var i := 0;
      while i < |descs|
        invariant 0 <= i <= |descs|
        invariant forall k: nat :: k < i ==> desc[k] == Link(descs, k)
        invariant forall k: nat :: i <= k < desc.Length ==> desc[k] == old(desc[k])
      {
        var more := i + 1 < |descs|;
        desc[i] := Desc(descs[i].addr, descs[i].len, if more then WithNext(descs[i].flags) else descs[i].flags,
                        if more then i + 1 else 0);
        i := i + 1;
      }
      forall k: nat | k < |descs|
        ensures Carries(desc[k], descs[k])
        ensures if k + 1 < |descs| then desc[k].flags & 1 == 1 && desc[k].next == k + 1 else desc[k].flags == descs[k].flags
      {
        LinkCarries(descs, k);
      }
    }

    /** The device, acting on the shared rings. */
    method DeviceActs(step: DeviceStep)
      requires Valid()
      modifies usedRing, `usedIdx, `lastAvail, `inflight, `log
      ensures Valid() && State() == DeviceExec(old(State()), step)
    {
      match step
      case DoFetch =>
        if lastAvail != availIdx {
          inflight := inflight + {availRing[lastAvail % QUEUE_SIZE]};
          lastAvail := (lastAvail + 1) % U16;
          log := log.(fetched := log.fetched + 1);
        }
      case DoComplete(e) =>
        if e.id in inflight {
          usedRing[usedIdx % QUEUE_SIZE] := e;
          usedIdx := (usedIdx + 1) % U16;
          inflight := inflight - {e.id};
          log := log.(completed := log.completed + [e]);
        }
    }

    /** virtio_submit_and_wait on an idle queue. While it polls, the device takes the steps of `script`, of
        which some completes a request. The call returns the length of the completion of its own request,
        and leaves the queue idle: nothing published is left unfetched, uncompleted or unread. Throughout, the
        chain at head 0 is the request: a device that fetches it sees these buffers, in this order. */
    method SubmitAndWait(descs: seq<Desc>, script: seq<DeviceStep>) returns (len: nat)
      requires Valid() && 0 < |descs| <= QUEUE_SIZE
      requires QueueOk(State(), {0}) && held == {0} && pending == Nothing
      requires HasUsed(DeviceRun(BumpIndex(WriteSlot(State(), 0)), script))
      requires desc != availRing as object && desc != usedRing as object && availRing != usedRing as object
      modifies desc, availRing, usedRing, `availIdx, `usedIdx, `usedSeen, `held, `lastAvail, `inflight, `log
      ensures Valid() && QueueOk(State(), {0}) && held == {0} && pending == Nothing
      ensures log.published == old(log.published) + [0] && log.completed == old(log.completed) + [Elem(0, len)]
      ensures log.seen == |log.completed| == log.fetched == |log.published|
      ensures HoldsRequest(desc[..], descs)
      ensures descs[|descs| - 1].flags & 1 == 0 ==> DeviceSees(desc[..], descs)
    {
      hide QueueOk, OneRequest, DeviceExec, HoldsRequest, Chain, DeviceSees, CanFetch;
      ghost var before := log;
      RequestPublished(State());
      FillChain(descs);
      Publish(0);
      var i := 0;
      while usedIdx == usedSeen
        invariant Valid() && OneRequest(State(), before) && i <= |script|
        invariant HasUsed(DeviceRun(State(), script[i..]))
        invariant HoldsRequest(desc[..], descs)
        decreases |script| - i
      {
        DeviceStepKeeps(State(), before, script[i]);
        assert script[i..][1..] == script[i + 1..];
        DeviceActs(script[i]);
        i := i + 1;
      }
      RequestTaken(State(), before);
      ghost var last := State();
      var e := usedRing[usedSeen % QUEUE_SIZE];
      len := e.len;
      usedSeen := (usedSeen + 1) % U16;
      held := held + {e.id};
      log := log.(seen := log.seen + 1);
      assert State() == TakeUsed(last);
      if descs[|descs| - 1].flags & 1 == 0 {
        RequestSeen(desc[..], descs);
      }
    }

    /** seed_queue of the input driver: descriptor i is event buffer i, for the device to write, in a chain of its own,
        and every one is published. */
    method SeedQueue(bufs: seq<nat>)
      requires Valid() && |bufs| == QUEUE_SIZE
      requires QueueOk(State(), Heads(0)) && held == Heads(0) && pending == Nothing
      requires desc != availRing as object && desc != usedRing as object && availRing != usedRing as object
      modifies desc, availRing, `availIdx, `held, `log
      ensures Valid() && QueueOk(State(), Heads(0)) && held == {} && pending == Nothing
      ensures log.published == old(log.published) + [0, 1, 2, 3, 4, 5, 6, 7]
      ensures forall k: nat :: k < 8 ==> Chain(desc[..], k, desc.Length) == [Desc(bufs[k], 8, 2, 0)]
    {
      hide QueueOk, WriteSlot, BumpIndex;
      var i := 0;
      ghost var heads := [0, 1, 2, 3, 4, 5, 6, 7];
      while i < QUEUE_SIZE
        invariant i <= QUEUE_SIZE && Valid() && QueueOk(State(), Heads(0)) && held == Heads(i) && pending == Nothing
        invariant log.published == old(log.published) + heads[..i]
        invariant forall k: nat :: k < i ==> desc[k] == Desc(bufs[k], EVENT_SIZE, F_WRITE, 0)
      {
        desc[i] := Desc(bufs[i], EVENT_SIZE, F_WRITE, 0);
        ghost var before := State();
        Publish(i);
        PublishKeeps(before, Heads(0), i);
        assert heads[..i + 1] == heads[..i] + [heads[i]];
        i := i + 1;
      }
      assert heads[..i] == heads;
      forall k: nat | k < 8
        ensures Chain(desc[..], k, desc.Length) == [Desc(bufs[k], 8, 2, 0)]
      {
        assert desc[..][k] == desc[k];
      }
    }

    /** virtio_blk_read_sector's request, with the addresses of its header, the caller's buffer and the status
        byte: the device is shown a 16-byte header to read, 512 bytes to write and one byte to write. */
    method ReadSector(header: nat, buf: nat, status: nat, script: seq<DeviceStep>) returns (len: nat)
      requires Valid()
      requires QueueOk(State(), {0}) && held == {0} && pending == Nothing
      requires HasUsed(DeviceRun(BumpIndex(WriteSlot(State(), 0)), script))
      requires desc != availRing as object && desc != usedRing as object && availRing != usedRing as object
      modifies desc, availRing, usedRing, `availIdx, `usedIdx, `usedSeen, `held, `lastAvail, `inflight, `log
      ensures Valid() && QueueOk(State(), {0}) && held == {0} && pending == Nothing
      ensures log.completed == old(log.completed) + [Elem(0, len)]
      ensures var c := Chain(desc[..], 0, desc.Length);
              && |c| == 3
              && c[0].addr == header && c[0].len == 16 && c[0].flags & 2 == 0
              && c[1].addr == buf && c[1].len == 512 && c[1].flags & 2 == 2
              && c[2].addr == status && c[2].len == 1 && c[2].flags & 2 == 2
    {
      hide QueueOk, DeviceRun, WriteSlot, BumpIndex, HasUsed, Chain;
      var descs := [Desc(header, 16, 0, 0), Desc(buf, 512, F_WRITE, 0), Desc(status, 1, F_WRITE, 0)];
      len := SubmitAndWait(descs, script);
      assert DeviceSees(desc[..], descs);
      ghost var c := Chain(desc[..], 0, desc.Length);
      WriteBit(c[0].flags, descs[0].flags);
      WriteBit(c[1].flags, descs[1].flags);
      WriteBit(c[2].flags, descs[2].flags);
    }
  }

  const EVENT_SIZE: nat := 8   // sizeof(virtio_input_event_t)

  lemma PublishKeeps(q: Queue, heads: set<nat>, id: nat)
    requires QueueOk(q, heads) && CanWriteSlot(q, id)
    ensures var t := BumpIndex(WriteSlot(q, id));
            && QueueOk(t, heads) && t.held == q.held - {id} && t.pending == Nothing
            && t.log.published == q.log.published + [id]
  {
    hide Partition;
    WriteSlotKeeps(q, heads, id);
    BumpIndexKeeps(WriteSlot(q, id), heads);
  }

  /** With its one head in the driver's hands, a queue has nothing outstanding. */
  lemma IdleQueue(q: Queue)
    requires QueueOk(q, {0}) && q.held == {0}
    ensures q.log.seen == |q.log.completed| == q.log.fetched == |q.log.published|
  {
    Outstanding(q, {0});
    assert |{0}| == 1;
  }
}

/** The split virtqueue of arch/aarch64/drivers/virtio.c: free-running 16-bit indices, an available ring the
    driver writes, a used ring the device writes (VIRTIO 1.1, section 2.6). Driver and device each take
    small steps, in any interleaving. */
module Virtqueue {

  const QUEUE_SIZE: nat := 8
  const U16: nat := 0x1_0000

  /** A used-ring element: the head of the completed chain and the bytes written. */
  datatype Elem = Elem(id: nat, len: nat)

  /** Shared rings and indices, the driver's used_seen, and the device's own position. `pending` is a slot
      already written whose index is not yet bumped; `held` are the heads in the driver's hands. */
  datatype Queue = Queue(
    availRing: seq<nat>, availIdx: nat, usedRing: seq<Elem>, usedIdx: nat,
    usedSeen: nat, pending: Pending, held: set<nat>,
    lastAvail: nat, inflight: set<nat>,
    log: Log)

  datatype Pending = Nothing | Slot(id: nat)

  /** Everything ever published and completed, and how much of each the other side has consumed. */
  datatype Log = Log(published: seq<nat>, fetched: nat, completed: seq<Elem>, seen: nat)

  function Ids(es: seq<Elem>): seq<nat> {
    if es == [] then [] else Ids(es[..|es| - 1]) + [es[|es| - 1].id]
  }

  function AllHeads(): set<nat> {
    {0, 1, 2, 3, 4, 5, 6, 7}
  }

  /** The heads from i on. */
  function Heads(i: nat): set<nat> {
    set k | k in AllHeads() && i <= k
  }

  // ---------------------------------------------------------------- driver steps

  predicate CanWriteSlot(q: Queue, id: nat) {
    q.pending == Nothing && id in q.held
  }

  /** First half of publish: the ring slot. */
  function WriteSlot(q: Queue, id: nat): Queue
    requires |q.availRing| == QUEUE_SIZE
  {
    q.(availRing := q.availRing[q.availIdx % QUEUE_SIZE := id], pending := Slot(id))
  }

  /** Second half of publish: the index, after the barrier. */
  function BumpIndex(q: Queue): Queue
    requires q.pending.Slot?
  {
    q.(availIdx := (q.availIdx + 1) % U16, pending := Nothing, held := q.held - {q.pending.id},
       log := q.log.(published := q.log.published + [q.pending.id]))
  }

  /** virtio_poll_used's test. */
  predicate HasUsed(q: Queue) {
    q.usedIdx != q.usedSeen
  }

  function NextUsed(q: Queue): Elem
    requires |q.usedRing| == QUEUE_SIZE
  {
    q.usedRing[q.usedSeen % QUEUE_SIZE]
  }

  /** The rest of virtio_poll_used: the element is read and used_seen moves on. */
  function TakeUsed(q: Queue): Queue
    requires |q.usedRing| == QUEUE_SIZE
  {
    q.(usedSeen := (q.usedSeen + 1) % U16, held := q.held + {NextUsed(q).id}, log := q.log.(seen := q.log.seen + 1))
  }

  // ---------------------------------------------------------------- device steps

  predicate CanFetch(q: Queue) {
    q.lastAvail != q.availIdx
  }

  /** The device takes the next available head. */
  function Fetch(q: Queue): Queue
    requires |q.availRing| == QUEUE_SIZE
  {
    q.(lastAvail := (q.lastAvail + 1) % U16, inflight := q.inflight + {q.availRing[q.lastAvail % QUEUE_SIZE]},
       log := q.log.(fetched := q.log.fetched + 1))
  }

  /** The device completes any head it holds, in whatever order. */
  function Complete(q: Queue, e: Elem): Queue
    requires |q.usedRing| == QUEUE_SIZE
  {
    q.(usedRing := q.usedRing[q.usedIdx % QUEUE_SIZE := e], usedIdx := (q.usedIdx + 1) % U16,
       inflight := q.inflight - {e.id}, log := q.log.(completed := q.log.completed + [e]))
  }

  // ---------------------------------------------------------------- the invariant

  /** Each head of `heads` is in exactly one place: available, with the device, used, or with the driver. */
  ghost predicate Partition(q: Queue, heads: set<nat>)
    requires q.log.fetched <= |q.log.published| && q.log.seen <= |q.log.completed|
  {
    multiset(q.log.published[q.log.fetched..]) + multiset(q.inflight) + multiset(Ids(q.log.completed[q.log.seen..]))
      + multiset(q.held) == multiset(heads)
  }

  ghost predicate QueueOk(q: Queue, heads: set<nat>) {
    && |q.availRing| == QUEUE_SIZE && |q.usedRing| == QUEUE_SIZE && |heads| <= QUEUE_SIZE
    && q.log.seen <= |q.log.completed| <= q.log.fetched <= |q.log.published|
    && q.log.fetched - |q.log.completed| == |q.inflight|
    && q.availIdx == |q.log.published| % U16 && q.lastAvail == q.log.fetched % U16
    && q.usedIdx == |q.log.completed| % U16 && q.usedSeen == q.log.seen % U16
    && (forall k :: q.log.fetched <= k < |q.log.published| ==> q.availRing[k % QUEUE_SIZE] == q.log.published[k])
    && (forall k :: q.log.seen <= k < |q.log.completed| ==> q.usedRing[k % QUEUE_SIZE] == q.log.completed[k])
    && (q.pending.Slot? ==> q.pending.id in q.held && q.availRing[|q.log.published| % QUEUE_SIZE] == q.pending.id)
    && Partition(q, heads)
  }

  lemma {:induction false} IdsSize(es: seq<Elem>)
    ensures |Ids(es)| == |es|
    decreases |es|
  {
    if es != [] {
      IdsSize(es[..|es| - 1]);
    }
  }

  lemma {:induction false} IdsFirst(es: seq<Elem>)
    requires es != []
    ensures Ids(es) == [es[0].id] + Ids(es[1..])
    decreases |es|
  {
    var n := |es| - 1;
    if n > 0 {
      IdsFirst(es[..n]);
      assert es[..n][1..] == es[1..][..n - 1];
    }
  }

  /** At most queue-size heads are outstanding, and exactly the heads the driver does not hold are. */
  lemma Outstanding(q: Queue, heads: set<nat>)
    requires QueueOk(q, heads)
    ensures |q.log.published| - q.log.seen + |q.held| == |heads|
  {
    IdsSize(q.log.completed[q.log.seen..]);
    var m := multiset(q.log.published[q.log.fetched..]) + multiset(q.inflight)
             + multiset(Ids(q.log.completed[q.log.seen..])) + multiset(q.held);
    assert |m| == |multiset(heads)|;
  }

  /** A 16-bit index still selects the slot of the unbounded count, because 8 divides 65536. */
  lemma SlotOf(count: nat)
    ensures count % U16 % QUEUE_SIZE == count % QUEUE_SIZE
  {
    var k, r := count / U16, count % U16;
    assert count == 8 * (8192 * k) + r;
  }

  /** Counts at most queue-size apart are told apart by their 16-bit indices and never share a slot early. */
  lemma IndexTells(a: nat, b: nat)
    requires a <= b <= a + QUEUE_SIZE
    ensures a % U16 == b % U16 <==> a == b
  {
  }

  lemma SlotsApart(a: nat, b: nat)
    requires a < b < a + QUEUE_SIZE
    ensures a % QUEUE_SIZE != b % QUEUE_SIZE
  {
  }

  /** A freshly reset queue, with every head in the driver's hands. */
  function Fresh(heads: set<nat>): Queue {
    Queue(seq(QUEUE_SIZE, i => 0), 0, seq(QUEUE_SIZE, i => Elem(0, 0)), 0, 0, Nothing, heads, 0, {}, Log([], 0, [], 0))
  }

  lemma FreshOk(heads: set<nat>)
    requires |heads| <= QUEUE_SIZE
    ensures QueueOk(Fresh(heads), heads)
  {
  }

  // ---------------------------------------------------------------- every step keeps it

  /** Writing the next available slot overwrites no entry the device has yet to fetch. */
  lemma WriteSlotKeeps(q: Queue, heads: set<nat>, id: nat)
    requires QueueOk(q, heads) && CanWriteSlot(q, id)
    ensures QueueOk(WriteSlot(q, id), heads)
  {
    Outstanding(q, heads);
    SlotOf(|q.log.published|);
    assert |q.held| >= 1 by { assert q.held != {}; }
    forall k | q.log.fetched <= k < |q.log.published|
      ensures k % QUEUE_SIZE != |q.log.published| % QUEUE_SIZE
    {
      SlotsApart(k, |q.log.published|);
    }
  }

  lemma BumpIndexKeeps(q: Queue, heads: set<nat>)
    requires QueueOk(q, heads) && q.pending.Slot?
    ensures QueueOk(BumpIndex(q), heads)
  {
    var t := BumpIndex(q);
    var id := q.pending.id;
    assert t.log.published[q.log.fetched..] == q.log.published[q.log.fetched..] + [id];
    assert multiset(q.held) == multiset(t.held) + multiset{id};
    IndexStep(|q.log.published|);
  }

  lemma IndexStep(n: nat)
    ensures (n % U16 + 1) % U16 == (n + 1) % U16
  {
  }

  /** The device fetches heads in the order they were published, each once. */
  lemma FetchKeeps(q: Queue, heads: set<nat>)
    requires QueueOk(q, heads) && CanFetch(q)
    ensures QueueOk(Fetch(q), heads) && q.log.fetched < |q.log.published|
    ensures Fetch(q).inflight == q.inflight + {q.log.published[q.log.fetched]} && q.log.published[q.log.fetched] !in q.inflight
  {
    var f := q.log.fetched;
    Outstanding(q, heads);
    IndexTells(f, |q.log.published|);
    SlotOf(f);
    IndexStep(f);
    PartitionFetch(q, heads);
    hide Partition, Ids;
  }

  lemma PartitionFetch(q: Queue, heads: set<nat>)
    requires |q.availRing| == QUEUE_SIZE && q.log.fetched < |q.log.published| && q.log.seen <= |q.log.completed|
    requires Partition(q, heads) && q.availRing[q.lastAvail % QUEUE_SIZE] == q.log.published[q.log.fetched]
    ensures Partition(Fetch(q), heads) && q.log.published[q.log.fetched] !in q.inflight
  {
    var f := q.log.fetched;
    var id := q.log.published[f];
    assert q.log.published[f..] == [id] + q.log.published[f + 1..];
    assert multiset(heads)[id] <= 1;
    assert multiset(q.inflight + {id}) == multiset(q.inflight) + multiset{id};
  }

  lemma PartitionComplete(q: Queue, heads: set<nat>, e: Elem)
    requires |q.usedRing| == QUEUE_SIZE && q.log.fetched <= |q.log.published| && q.log.seen <= |q.log.completed|
    requires Partition(q, heads) && e.id in q.inflight
    ensures Partition(Complete(q, e), heads)
  {
    var s, n := q.log.seen, |q.log.completed|;
    assert (q.log.completed + [e])[s..] == q.log.completed[s..] + [e];
    IdsSnoc(q.log.completed[s..], e);
    assert multiset(q.inflight) == multiset(q.inflight - {e.id}) + multiset{e.id};
  }

  lemma IdsSnoc(es: seq<Elem>, e: Elem)
    ensures Ids(es + [e]) == Ids(es) + [e.id]
  {
    assert (es + [e])[..|es|] == es;
  }

  /** Completing overwrites no element the driver has yet to read. */
  lemma CompleteKeeps(q: Queue, heads: set<nat>, e: Elem)
    requires QueueOk(q, heads) && e.id in q.inflight
    ensures QueueOk(Complete(q, e), heads)
  {
    hide Partition, Ids;
    var n, s := |q.log.completed|, q.log.seen;
    Outstanding(q, heads);
    PartitionComplete(q, heads, e);
    SlotOf(n);
    IndexStep(n);
    assert |q.inflight| >= 1 by { assert q.inflight != {}; }
    forall k | s <= k < n
      ensures k % QUEUE_SIZE != n % QUEUE_SIZE
    {
      SlotsApart(k, n);
    }
  }

  lemma PartitionTake(q: Queue, heads: set<nat>)
    requires |q.usedRing| == QUEUE_SIZE && q.log.fetched <= |q.log.published| && q.log.seen < |q.log.completed|
    requires Partition(q, heads) && NextUsed(q) == q.log.completed[q.log.seen]
    ensures Partition(TakeUsed(q), heads) && NextUsed(q).id !in q.held
  {
    var rest := q.log.completed[q.log.seen..];
    assert rest[1..] == q.log.completed[q.log.seen + 1..];
    IdsFirst(rest);
    var id := NextUsed(q).id;
    assert multiset(heads)[id] <= 1 && multiset(Ids(rest))[id] >= 1;
    assert multiset(q.held + {id}) == multiset(q.held) + multiset{id};
  }

  /** The driver's 16-bit test is exact, and what it reads is the oldest completion not yet taken. */
  lemma TakeUsedKeeps(q: Queue, heads: set<nat>)
    requires QueueOk(q, heads)
    ensures HasUsed(q) <==> q.log.seen < |q.log.completed|
    ensures HasUsed(q) ==> NextUsed(q) == q.log.completed[q.log.seen] && NextUsed(q).id !in q.held
    ensures HasUsed(q) ==> QueueOk(TakeUsed(q), heads)
  {
    var s := q.log.seen;
    Outstanding(q, heads);
    if s < |q.log.completed| {
      SlotOf(s);
      PartitionTake(q, heads);
    }
    hide Partition, Ids;
    IndexTells(s, |q.log.completed|);
    IndexStep(s);
  }
}

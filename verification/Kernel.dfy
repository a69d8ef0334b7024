/** Page tables, heap and other frame users on one allocator: who owns which frame, in every reachable state. */
module Kernel {
  import opened Arith
  import opened Pmm
  import opened PageTable
  import opened PageOps
  import opened PageClone
  import opened PageRuns
  import PageTheorems
  import opened HeapView
  import opened HeapRuns
  import HeapMemory

  /** The spaces and held frames, and the heap's arenas. */
  datatype KState = KState(y: Sys, v: View)

  ghost function FramesOf(a: Arena): set<nat> {
    Span(a.base / FRAME_SIZE, a.frames)
  }

  ghost function ArenaFrames(v: View): set<nat> {
    set i, f | 0 <= i < |v| && f in FramesOf(v[i]) :: f
  }

  function HeapOf(k: KState): HeapState {
    HeapState(k.v, k.y.s.used)
  }

  /** Sound page tables, a sound heap in held frames, and the words of memory spelling out its headers. */
  ghost predicate KernelOk(a: Arch, k: KState) {
    Inv(a, k.y) && HeapOk(HeapOf(k), |k.y.s.mem|) && ArenaFrames(k.v) <= k.y.held && HeapMemory.Spells(k.y.s.mem, k.v)
  }

  /** Payloads are written by their owners, with Store. */
  datatype KernelOp = Space(op: Op) | Malloc(size: U64Value) | Free(i: nat, j: nat)

  /** A store into an arena goes into the payload of a live block. */
  ghost predicate StoreAllowed(v: View, o: Op) {
    o.Store? && o.frame in ArenaFrames(v) ==> exists d :: d in Live(v) && HeapMemory.InPayload(d, o.frame, o.i)
  }

  /** Frames are given back by their owner only, so never out of an arena. */
  ghost predicate KernelEnabled(a: Arch, k: KState, op: KernelOp) {
    match op
    case Space(o) =>
      0 in k.y.roots && Enabled(a, k.y, o) && (o.Give? ==> o.frame !in ArenaFrames(k.v)) && StoreAllowed(k.v, o)
    case Malloc(size) => !Overrun(HeapOf(k), |k.y.s.mem|, size)
    case Free(i, j) => i < |k.v| && j < |k.v[i].cells| && !k.v[i].cells[j].free
  }

  /** The memory with the headers kmalloc and kfree store, in the words the page tables could live in. */
  function AfterMalloc(k: KState, size: U64Value): (r: Memory)
    ensures |r| == |k.y.s.mem|
  {
    HeapMemory.MallocMemory(k.y.s.mem, HeapOf(k), size)
  }

  function AfterFree(k: KState, i: nat, j: nat): (r: Memory)
    requires i < |k.v| && j < |k.v[i].cells|
    ensures |r| == |k.y.s.mem|
  {
    HeapMemory.GivenMemory(k.y.s.mem, k.v[i].cells[j].addr)
  }

  ghost function KernelExec(a: Arch, k: KState, op: KernelOp): KState {
    match op
    case Space(o) => k.(y := Exec(a, k.y, o))
    case Malloc(size) =>
      if Overrun(HeapOf(k), |k.y.s.mem|, size) then k
      else
        var g := Kmalloc(HeapOf(k), |k.y.s.mem|, size).0;
        KState(k.y.(s := Phys(AfterMalloc(k, size), g.used), held := k.y.held + (g.used - k.y.s.used)), g.v)
    case Free(i, j) =>
      if i < |k.v| && j < |k.v[i].cells| then
        KState(k.y.(s := k.y.s.(mem := AfterFree(k, i, j))), Kfree(HeapOf(k), i, j).v)
      else k
  }

  // ---------------------------------------------------------------- owners

  datatype Owner = Table(id: nat) | Heap(arena: nat) | Other

  ghost predicate Owns(a: Arch, k: KState, o: Owner, f: nat) {
    match o
    case Table(id) => id in k.y.roots && f in Footprint(a, k.y.s.mem, k.y.roots[id])
    case Heap(i) => i < |k.v| && f in FramesOf(k.v[i])
    case Other => f in k.y.held && f !in ArenaFrames(k.v)
  }

  lemma ArenasDisjoint(v: View, i: nat, j: nat)
    requires ViewOk(v) && i < |v| && j < |v| && i != j
    ensures FramesOf(v[i]) !! FramesOf(v[j])
  {
    hide Tiles;
    FramesApart(v[i].base / FRAME_SIZE, v[i].frames, v[j].base / FRAME_SIZE, v[j].frames);
  }

  lemma FramesApart(p: nat, n: nat, q: nat, m: nat)
    requires p * FRAME_SIZE + n * FRAME_SIZE <= q * FRAME_SIZE || q * FRAME_SIZE + m * FRAME_SIZE <= p * FRAME_SIZE
    ensures Span(p, n) !! Span(q, m)
  {
    assert p + n <= q || q + m <= p;
  }

  /** A frame is in use exactly when somebody owns it, and nobody else does: it is a table of exactly one
      space, or lies in exactly one arena, or is held by somebody else. */
  lemma OneOwner(a: Arch, k: KState, f: nat)
    requires KernelOk(a, k)
    ensures f in k.y.s.used <==> exists o :: Owns(a, k, o, f)
    ensures forall o, p :: Owns(a, k, o, f) && Owns(a, k, p, f) ==> o == p
  {
    hide Footprint, SpaceOk, Sane, FramesOf, ViewOk, Span;
    forall o, p | Owns(a, k, o, f) && Owns(a, k, p, f)
      ensures o == p
    {
      if o.Heap? && p.Heap? && o != p {
        ArenasDisjoint(k.v, o.arena, p.arena);
      }
    }
    if f in k.y.s.used {
      if f in Owned(a, k.y) {
        var id :| id in k.y.roots && f in Footprint(a, k.y.s.mem, k.y.roots[id]);
        assert Owns(a, k, Table(id), f);
      } else if f in ArenaFrames(k.v) {
        var i :| 0 <= i < |k.v| && f in FramesOf(k.v[i]);
        assert Owns(a, k, Heap(i), f);
      } else {
        assert Owns(a, k, Other, f);
      }
    }
    if o :| Owns(a, k, o, f) {
      if o.Table? {
        assert f in Owned(a, k.y);
      }
    }
  }

  // ---------------------------------------------------------------- steps

  lemma MemoryStays(a: Arch, y: Sys, op: Op)
    requires 0 in y.roots && Enabled(a, y, op) && Inv(a, y)
    ensures |Exec(a, y, op).s.mem| == |y.s.mem|
  {
    hide Inv, Foot, Tree, Walk, MapPage, UnmapPage, Clone, Release;
    if op.Map? || op.Unmap? {
      SpaceReadyIn(a, y, op.id);
    }
    SpaceReadyIn(a, y, 0);
    match op
    case Map(id, v, phys, flags) => MapGrows(a, y.s, y.roots[id], Levels(a), v, phys, flags);
    case Unmap(id, v) => UnmapKeeps(a, y.s.mem, y.roots[id], Levels(a), v);
    case Create(id) => CloneFacts(a, y.s, y.roots[0], Levels(a));
    case _ =>
  }

  lemma SpaceReadyIn(a: Arch, y: Sys, id: nat)
    requires Inv(a, y) && id in y.roots
    ensures Sane(y.s) && Tree(a, y.s.mem, y.roots[id], Levels(a)) && Foot(a, y.s.mem, y.roots[id], Levels(a)) <= y.s.used
  {
    OwnIsUsed(a, y, id);
    assert SpaceOk(a, y.s.mem, y.roots[id]);
  }

  /** The held frames of arenas stay held. */
  lemma HeldStays(a: Arch, y: Sys, op: Op)
    requires 0 in y.roots && Enabled(a, y, op) && Inv(a, y)
    ensures y.held - (if op.Give? then {op.frame} else {}) <= Exec(a, y, op).held <= Exec(a, y, op).s.used
    ensures Sane(Exec(a, y, op).s)
  {
    hide Foot, Tree, Walk, MapPage, UnmapPage, Clone, Release, SpaceOk, Footprint, FirstRun, Span;
    StepKeeps(a, y, op);
  }

  lemma ArenasUsed(v: View, used: set<nat>, used': set<nat>, total: nat)
    requires HeapOk(HeapState(v, used), total) && ArenaFrames(v) <= used'
    requires 0 in used' && forall f: nat :: f in used' ==> f < total
    ensures HeapOk(HeapState(v, used'), total)
  {
    hide ViewOk, Span;
    forall i | 0 <= i < |v|
      ensures Span(v[i].base / FRAME_SIZE, v[i].frames) <= used'
    {
      assert forall f :: f in FramesOf(v[i]) ==> f in ArenaFrames(v);
    }
  }

  lemma SameFrames(v: View, w: View)
    requires |w| == |v| && forall i :: 0 <= i < |v| ==> w[i].base == v[i].base && w[i].frames == v[i].frames
    ensures ArenaFrames(w) == ArenaFrames(v)
  {
    hide Span;
    assert forall i :: 0 <= i < |v| ==> FramesOf(w[i]) == FramesOf(v[i]);
    forall f
      ensures f in ArenaFrames(w) <==> f in ArenaFrames(v)
    {
      if f in ArenaFrames(w) {
        var i :| 0 <= i < |w| && f in FramesOf(w[i]);
        assert f in FramesOf(v[i]);
      }
      if f in ArenaFrames(v) {
        var i :| 0 <= i < |v| && f in FramesOf(v[i]);
        assert f in FramesOf(w[i]);
      }
    }
  }

  /** kmalloc's arenas after the call: those before, and the frames it took. */
  lemma MallocFrames(h: HeapState, total: nat, size: U64Value)
    requires !Overrun(h, total, size) && HeapOk(h, total)
    ensures ArenaFrames(Kmalloc(h, total, size).0.v) == ArenaFrames(h.v) + (Kmalloc(h, total, size).0.used - h.used)
  {
    hide Aligned, GrowFrames, GrowSize, FirstRun, Span, ViewOk, TakeCell;
    var n := Aligned(size);
    if size > 0 {
      FirstFitIsFirst(h.v, n, 0);
      if FirstFit(h.v, n, 0).Some? {
        var (i, j) := FirstFit(h.v, n, 0).value;
        SameFrames(h.v, TakeAt(h.v, i, j, n));
      } else {
        var run := FirstRun(h.used, total, GrowFrames(n), 0);
        if run.Some? {
          FirstRunIsLowest(h.used, total, GrowFrames(n), 0);
          var w := [NewArena(run.value, n)] + h.v;
          SameFrames(w, TakeAt(w, 0, 0, n));
          NewFrames(h, run.value, n);
        }
      }
    }
  }

  lemma NewFrames(h: HeapState, start: nat, n: U64Value)
    requires Span(start, GrowFrames(n)) !! h.used
    ensures ArenaFrames([NewArena(start, n)] + h.v) == ArenaFrames(h.v) + (h.used + Span(start, GrowFrames(n)) - h.used)
  {
    hide Span, GrowFrames, GrowSize;
    var w := [NewArena(start, n)] + h.v;
    QuotientUnique(start * FRAME_SIZE, FRAME_SIZE, start, 0);
    assert FramesOf(w[0]) == Span(start, GrowFrames(n));
    forall f
      ensures f in ArenaFrames(w) <==> f in ArenaFrames(h.v) || f in FramesOf(w[0])
    {
      if f in ArenaFrames(w) {
        var i :| 0 <= i < |w| && f in FramesOf(w[i]);
        assert i == 0 || w[i] == h.v[i - 1];
      }
      if f in ArenaFrames(h.v) {
        var i :| 0 <= i < |h.v| && f in FramesOf(h.v[i]);
        assert w[i + 1] == h.v[i];
      }
    }
  }

  /** No operation but Store writes a held frame. */
  lemma HeldUnwritten(a: Arch, y: Sys, op: Op, f: nat)
    requires 0 in y.roots && Enabled(a, y, op) && !op.Store? && f in y.held && f < |y.s.mem| && Inv(a, y)
    ensures |Exec(a, y, op).s.mem| == |y.s.mem| && Exec(a, y, op).s.mem[f] == y.s.mem[f]
  {
    hide Inv, Foot, Tree, Walk, MapPage, UnmapPage, Clone, Release;
    if op.Map? || op.Unmap? {
      SpaceReadyIn(a, y, op.id);
      OwnIsUsed(a, y, op.id);
    }
    SpaceReadyIn(a, y, 0);
    OwnIsUsed(a, y, 0);
    match op
    case Map(id, v, phys, flags) => MapGrows(a, y.s, y.roots[id], Levels(a), v, phys, flags);
    case Unmap(id, v) => UnmapKeeps(a, y.s.mem, y.roots[id], Levels(a), v);
    case Create(id) => CloneFacts(a, y.s, y.roots[0], Levels(a));
    case _ =>
  }

  /** The words of headers lie in frames of arenas. */
  lemma WordInArena(v: View, f: nat, i: nat)
    requires ViewOk(v) && i < 512 && HeapMemory.HeaderWordOf(v, f, i)
    ensures f in ArenaFrames(v)
  {
    hide ViewOk;
    var w := f * FRAME_SIZE + 8 * i;
    if p: nat :| p < |v| && v[p].base <= w < v[p].base + HDR {
      HeapMemory.FirstCell(v, p);
      HeapMemory.Aligned8(v, p, 0);
      PlaceInArena(v, p, v[p].base, f, i);
    } else {
      var p: nat, q: nat :| p < |v| && q < |v[p].cells| && v[p].cells[q].addr <= w < v[p].cells[q].addr + HDR;
      HeapMemory.Aligned8(v, p, q);
      PlaceInArena(v, p, v[p].cells[q].addr, f, i);
    }
  }

  lemma PlaceInArena(v: View, p: nat, x: nat, f: nat, i: nat)
    requires ViewOk(v) && p < |v| && v[p].base <= x && x + HDR <= v[p].End() && i < 512 && x <= f * FRAME_SIZE + 8 * i < x + HDR
    ensures f in ArenaFrames(v)
  {
    hide Span, Tiles;
    HeaderFrame(v[p].base, v[p].frames, x, f, i);
    assert f in FramesOf(v[p]);
  }

  /** Nor does a space operation, or an owner's store, touch a header. */
  lemma SpaceSpells(a: Arch, k: KState, o: Op)
    requires KernelOk(a, k) && 0 in k.y.roots && KernelEnabled(a, k, Space(o))
    ensures HeapMemory.Spells(Exec(a, k.y, o).s.mem, k.v)
  {
    hide Inv, ViewOk, HeapMemory.Spells, Enabled, ArenaFrames, HeapMemory.HeaderWordOf, Live;
    var m, n := k.y.s.mem, Exec(a, k.y, o).s.mem;
    MemoryStays(a, k.y, o);
    HeldUsed(a, k.y);
    forall f: nat, i: nat | i < 512 && HeapMemory.HeaderWordOf(k.v, f, i)
      ensures Get(n, f, i) == Get(m, f, i)
    {
      WordInArena(k.v, f, i);
      if o.Store? {
        if f == o.frame && i == o.i {
          var d :| d in Live(k.v) && HeapMemory.InPayload(d, f, i);
          HeapMemory.PayloadIsNoHeader(k.v, d, f, i);
        } else {
          OtherWord(m, o.frame, o.i, o.w, f, i);
        }
      } else {
        HeldUnwritten(a, k.y, o, f);
      }
    }
    HeapMemory.SpellsKept(m, n, k.v);
  }

  lemma OtherWord(m: Memory, frame: nat, j: nat, w: Word, f: nat, i: nat)
    requires f != frame || i != j
    ensures Get(Put(m, frame, j, w), f, i) == Get(m, f, i)
  {
  }

  lemma SpaceStep(a: Arch, k: KState, o: Op)
    requires KernelOk(a, k) && 0 in k.y.roots && KernelEnabled(a, k, Space(o))
    ensures KernelOk(a, KernelExec(a, k, Space(o)))
  {
    hide Inv, HeapOk, Exec, Enabled, ArenaFrames, Sane, HeapMemory.Spells, StoreAllowed;
    StepKeeps(a, k.y, o);
    MemoryStays(a, k.y, o);
    HeldStays(a, k.y, o);
    SpaceSpells(a, k, o);
    var z := Exec(a, k.y, o);
    assert ArenaFrames(k.v) <= z.held;
    SaneMeans(z.s);
    ArenasUsed(k.v, k.y.s.used, z.s.used, |k.y.s.mem|);
  }

  lemma SaneMeans(s: Phys)
    requires Sane(s)
    ensures 0 in s.used && forall f: nat :: f in s.used ==> f < |s.mem|
  {
  }

  /** The words of a header inside an arena lie in that arena's frames. */
  lemma HeaderFrame(base: nat, frames: nat, x: nat, f: nat, i: nat)
    requires base % FRAME_SIZE == 0 && base <= x && x + HDR <= base + frames * FRAME_SIZE
    requires x <= f * FRAME_SIZE + 8 * i < x + HDR && i < 512
    ensures f in Span(base / FRAME_SIZE, frames)
  {
    var p := base / FRAME_SIZE;
    assert base == p * FRAME_SIZE;
    assert p <= f < p + frames;
  }

  lemma HeaderWord(v: View, H: set<nat>, f: nat, i: nat)
    requires ViewOk(v) && i < 512 && forall x :: x in H ==> InArena(v, x)
    requires exists x :: x in H && x <= f * FRAME_SIZE + 8 * i < x + HDR
    ensures f in ArenaFrames(v)
  {
    hide Span, Tiles;
    var x :| x in H && x <= f * FRAME_SIZE + 8 * i < x + HDR;
    var k :| 0 <= k < |v| && v[k].base <= x && x + HDR <= v[k].End();
    HeaderFrame(v[k].base, v[k].frames, x, f, i);
    assert f in FramesOf(v[k]);
  }

  /** Headers that lie in arenas are written in frames of arenas. */
  lemma HeaderStores(m: Memory, n: Memory, H: set<nat>, v: View)
    requires HeapMemory.OnlyHeaders(m, n, H) && ViewOk(v) && forall x :: x in H ==> InArena(v, x)
    ensures |n| == |m| && forall f: nat :: f < |m| && f !in ArenaFrames(v) ==> n[f] == m[f]
  {
    hide Span, Tiles;
    forall f: nat | f < |m| && f !in ArenaFrames(v)
      ensures n[f] == m[f]
    {
      forall i: nat | i < 512
        ensures Get(n, f, i) == Get(m, f, i)
      {
        if Get(n, f, i) != Get(m, f, i) {
          HeaderWord(v, H, f, i);
        }
      }
      assert forall i: nat :: i < 512 ==> n[f][i] == Get(n, f, i) && m[f][i] == Get(m, f, i);
    }
  }

  /** Writing frames that are held or just taken, and taking frames, disturbs no space. */
  lemma StoresAndTakes(a: Arch, y: Sys, after: Memory, taken: set<nat>, written: set<nat>)
    requires Inv(a, y) && taken !! y.s.used && Sane(Phys(after, y.s.used + taken)) && |after| == |y.s.mem|
    requires written <= y.held + taken
    requires forall f: nat :: f < |after| && f !in written ==> after[f] == y.s.mem[f]
    ensures OtherOk(a, y, y.(s := Phys(after, y.s.used + taken), held := y.held + taken))
  {
    hide Foot, Tree, Walk;
    var z := y.(s := Phys(after, y.s.used + taken), held := y.held + taken);
    OwnIsUsed(a, y, 0);
    KeepOthers(a, y, z, 0, written);
    assert SpaceOk(a, y.s.mem, y.roots[0]);
    KeepSpace(a, y.s.mem, z.s.mem, y.roots[0]);
    InvAgain(a, y, z, 0);
  }

  lemma HeapParts(h: HeapState, total: nat)
    requires HeapOk(h, total)
    ensures ViewOk(h.v) && 0 in h.used && forall f: nat :: f in h.used ==> f < total
  {
  }

  /** kmalloc, storing its headers and growing or not, disturbs no address space, and its stores spell the heap. */
  lemma MallocStep(a: Arch, k: KState, size: U64Value)
    requires KernelOk(a, k) && KernelEnabled(a, k, KernelOp.Malloc(size))
    ensures var z := KernelExec(a, k, KernelOp.Malloc(size));
            KernelOk(a, z) && OtherOk(a, k.y, z.y) && ArenaFrames(z.v) - z.y.held == {}
            && ArenaFrames(z.v) == ArenaFrames(k.v) + (z.y.held - k.y.held) && k.y.held <= z.y.held
  {
    hide Inv, HeapOk, ArenaFrames, Kmalloc, OtherOk, Live, Overrun, MallocHeaders, HeapMemory.OnlyHeaders, ViewOk, InArena,
      HeapMemory.Spells, HeapMemory.MallocMemory;
    var total := |k.y.s.mem|;
    var h := HeapOf(k);
    var g := Kmalloc(h, total, size).0;
    var after := AfterMalloc(k, size);
    var _ := KmallocFacts(h, total, size);
    HeapMemory.MallocSpells(k.y.s.mem, h, size);
    MallocFrames(h, total, size);
    HeapParts(g, total);
    forall x | x in MallocHeaders(h, total, size)
      ensures InArena(g.v, x)
    {
      MallocHeadersFit(h, total, size, x);
    }
    HeaderStores(k.y.s.mem, after, MallocHeaders(h, total, size), g.v);
    StoresAndTakes(a, k.y, after, g.used - k.y.s.used, ArenaFrames(g.v));
    assert k.y.s.used + (g.used - k.y.s.used) == g.used;
    OtherMeans(a, k.y, KernelExec(a, k, KernelOp.Malloc(size)).y);
    HeldUsed(a, k.y);
  }

  lemma HeldUsed(a: Arch, y: Sys)
    requires Inv(a, y)
    ensures y.held <= y.s.used && Sane(y.s)
  {
    hide SpaceOk, Footprint;
  }

  lemma OtherMeans(a: Arch, y: Sys, z: Sys)
    requires OtherOk(a, y, z)
    ensures Inv(a, z)
  {
    hide Inv;
  }

  /** So does kfree, storing its header. */
  lemma FreeStep(a: Arch, k: KState, i: nat, j: nat)
    requires KernelOk(a, k) && KernelEnabled(a, k, KernelOp.Free(i, j))
    ensures var z := KernelExec(a, k, KernelOp.Free(i, j));
            && KernelOk(a, z) && OtherOk(a, k.y, z.y)
            && ArenaFrames(z.v) == ArenaFrames(k.v) && z.y.held == k.y.held
  {
    hide Inv, HeapOk, ArenaFrames, GiveCell, Live, OtherOk, HeapMemory.OnlyHeaders, ViewOk, InArena, HeapMemory.Spells,
      HeapMemory.GivenMemory;
    var after := AfterFree(k, i, j);
    KfreeFacts(HeapOf(k), |k.y.s.mem|, i, j);
    SameFrames(k.v, Kfree(HeapOf(k), i, j).v);
    HeapParts(HeapOf(k), |k.y.s.mem|);
    HeapMemory.SpellsMeans(HeapOf(k), k.y.s.mem);
    HeapMemory.GiveSpells(k.y.s.mem, HeapOf(k), i, j);
    HeapMemory.Aligned8(k.v, i, j);
    HeapMemory.GivenOnly(k.y.s.mem, k.v[i].cells[j].addr);
    FreeHeaderFits(k.v, i, j);
    HeaderStores(k.y.s.mem, after, {k.v[i].cells[j].addr}, k.v);
    HeldUsed(a, k.y);
    StoresAndTakes(a, k.y, after, {}, ArenaFrames(k.v));
    assert k.y.s.used + {} == k.y.s.used && k.y.held + {} == k.y.held;
    OtherMeans(a, k.y, KernelExec(a, k, KernelOp.Free(i, j)).y);
  }

  /** No word of a live block's payload changes under kmalloc ... */
  lemma MallocSparesPayloads(a: Arch, k: KState, size: U64Value, d: Cell, f: nat, i: nat)
    requires KernelOk(a, k) && KernelEnabled(a, k, KernelOp.Malloc(size))
    requires d in Live(k.v) && HeapMemory.InPayload(d, f, i) && f < |k.y.s.mem| && i < 512
    ensures Get(AfterMalloc(k, size), f, i) == Get(k.y.s.mem, f, i)
  {
    hide Inv, HeapOk, Kmalloc, Live, Overrun, MallocHeaders, HeapMemory.Spells, HeapMemory.MallocMemory;
    HeapMemory.MallocSpells(k.y.s.mem, HeapOf(k), size);
    if Get(AfterMalloc(k, size), f, i) != Get(k.y.s.mem, f, i) {
      var x :| x in MallocHeaders(HeapOf(k), |k.y.s.mem|, size) && x <= f * FRAME_SIZE + 8 * i < x + HDR;
      MallocHeadersFit(HeapOf(k), |k.y.s.mem|, size, x);
      assert false;
    }
  }

  /** ... or under kfree of another block. */
  lemma FreeSparesPayloads(a: Arch, k: KState, p: nat, q: nat, d: Cell, f: nat, i: nat)
    requires KernelOk(a, k) && KernelEnabled(a, k, KernelOp.Free(p, q))
    requires d in Live(k.v) && d != k.v[p].cells[q] && HeapMemory.InPayload(d, f, i) && f < |k.y.s.mem| && i < 512
    ensures Get(AfterFree(k, p, q), f, i) == Get(k.y.s.mem, f, i)
  {
    hide Inv, HeapOk, Live, HeapMemory.Spells, HeapMemory.GivenMemory, ViewOk;
    HeapParts(HeapOf(k), |k.y.s.mem|);
    HeapMemory.Aligned8(k.v, p, q);
    HeapMemory.GivenOnly(k.y.s.mem, k.v[p].cells[q].addr);
    if Get(AfterFree(k, p, q), f, i) != Get(k.y.s.mem, f, i) {
      FreeHeaderFits(k.v, p, q);
      assert false;
    }
  }

  /** Every operation of the memory manager, the heap and the other frame users keeps everything together. */
  lemma KernelStepKeeps(a: Arch, k: KState, op: KernelOp)
    requires KernelOk(a, k) && KernelEnabled(a, k, op)
    ensures KernelOk(a, KernelExec(a, k, op))
  {
    hide KernelOk, KernelExec;
    match op
    case Space(o) => SpaceStep(a, k, o);
    case Malloc(size) => MallocStep(a, k, size);
    case Free(i, j) => FreeStep(a, k, i, j);
  }

  /** A kernel whose heap has no arena yet. */
  lemma StartsOk(a: Arch, y: Sys)
    requires Inv(a, y)
    ensures KernelOk(a, KState(y, []))
  {
    hide SpaceOk, Footprint;
    assert ArenaFrames([]) == {};
  }

  ghost predicate KernelRun(a: Arch, k: KState, ops: seq<KernelOp>, z: KState)
    decreases |ops|
  {
    if ops == [] then z == k
    else KernelEnabled(a, k, ops[0]) && KernelRun(a, KernelExec(a, k, ops[0]), ops[1..], z)
  }

  /** In every reachable state of the whole kernel, whatever mix of address-space operations, kmalloc, kfree
      and direct use of frames led there, a frame is in use exactly when it has an owner, and it has one only. */
  lemma {:induction false} RunOneOwner(a: Arch, k: KState, ops: seq<KernelOp>, z: KState, f: nat)
    requires KernelOk(a, k) && KernelRun(a, k, ops, z)
    ensures KernelOk(a, z)
    ensures f in z.y.s.used <==> exists o :: Owns(a, z, o, f)
    ensures forall o, p :: Owns(a, z, o, f) && Owns(a, z, p, f) ==> o == p
    decreases |ops|
  {
    hide KernelOk, KernelEnabled, KernelExec, Owns;
    if ops == [] {
      OneOwner(a, z, f);
    } else {
      KernelStepKeeps(a, k, ops[0]);
      RunOneOwner(a, KernelExec(a, k, ops[0]), ops[1..], z, f);
    }
  }

  // ---------------------------------------------------------------- the life of a space

  /** What may happen while space id lives: maps and unmaps in it, frame traffic, kmalloc and kfree. */
  predicate KernelUses(op: KernelOp, id: nat) {
    op.Space? ==> PageTheorems.UsesOnly(op.op, id)
  }

  predicate NoFrameTraffic(op: KernelOp) {
    op.Space? ==> !op.op.Take? && !op.op.Give?
  }

  /** Space id came on top of k's; without frame traffic the arenas account for all frames newly held. */
  ghost predicate KernelGuest(a: Arch, k: KState, w: KState, id: nat, quiet: bool) {
    && KernelOk(a, w) && PageTheorems.Guest(a, k.y, w.y, id)
    && (quiet ==> w.y.held - ArenaFrames(w.v) == k.y.held - ArenaFrames(k.v))
  }

  lemma HeldBySpaceOp(a: Arch, y: Sys, o: Op, id: nat)
    requires PageTheorems.UsesOnly(o, id) && !o.Take? && !o.Give?
    ensures Exec(a, y, o).held == y.held
  {
  }

  lemma KernelGuestStep(a: Arch, k: KState, w: KState, id: nat, quiet: bool, op: KernelOp)
    requires KernelGuest(a, k, w, id, quiet) && KernelEnabled(a, w, op) && KernelUses(op, id)
    requires quiet ==> NoFrameTraffic(op)
    ensures KernelGuest(a, k, KernelExec(a, w, op), id, quiet)
  {
    hide Inv, HeapOk, ArenaFrames, Exec, Enabled, PageTheorems.Guest, OtherOk, OthersKept, Kmalloc, Overrun, PageTheorems.UsesOnly,
      HeapMemory.Spells, StoreAllowed, AfterMalloc, AfterFree;
    var z := KernelExec(a, w, op);
    match op {
      case Space(o) =>
        SpaceStep(a, w, o);
        PageTheorems.GuestStep(a, k.y, w.y, id, o);
        if quiet {
          HeldBySpaceOp(a, w.y, o, id);
        }
      case Malloc(size) =>
        MallocStep(a, w, size);
        PageTheorems.AllKept(a, w.y, z.y, id);
        PageTheorems.GuestStays(a, k.y, w.y, z.y, id);
        assert z.y.held == w.y.held + (z.y.held - w.y.held);
      case Free(i, j) =>
        FreeStep(a, w, i, j);
        PageTheorems.AllKept(a, w.y, z.y, id);
        PageTheorems.GuestStays(a, k.y, w.y, z.y, id);
    }
  }

  /** What is left of the visit: the tables are all back, the other spaces as they were; the frames in use beyond
      those held are the same, and without frame traffic so are those in use beyond the heap's arenas. */
  ghost predicate Departed(a: Arch, k: KState, z: KState, id: nat, quiet: bool) {
    && KernelOk(a, z) && z.y.roots == k.y.roots && OthersKept(a, k.y, z.y, id)
    && z.y.s.used - z.y.held == k.y.s.used - k.y.held
    && (quiet ==> z.y.s.used - ArenaFrames(z.v) == k.y.s.used - ArenaFrames(k.v))
  }

  lemma KernelGuestLeaves(a: Arch, k: KState, w: KState, id: nat, quiet: bool)
    requires KernelGuest(a, k, w, id, quiet) && id != 0 && KernelOk(a, k)
    requires KernelEnabled(a, w, Space(Destroy(id)))
    ensures Departed(a, k, KernelExec(a, w, Space(Destroy(id))), id, quiet)
  {
    hide Inv, HeapOk, ArenaFrames, Exec, Enabled, PageTheorems.Guest, OthersKept;
    var z := KernelExec(a, w, Space(Destroy(id)));
    SpaceStep(a, w, Destroy(id));
    PageTheorems.GuestLeaves(a, k.y, w.y, id);
    BeyondArenas(a, k);
    BeyondArenas(a, z);
  }

  lemma BeyondArenas(a: Arch, k: KState)
    requires KernelOk(a, k)
    ensures k.y.s.used - ArenaFrames(k.v) == (k.y.held - ArenaFrames(k.v)) + (k.y.s.used - k.y.held)
  {
    hide Inv, HeapOk, ArenaFrames;
    HeldUsed(a, k.y);
  }

  lemma {:induction false} KernelGuestRun(a: Arch, k: KState, w: KState, id: nat, quiet: bool, ops: seq<KernelOp>, z: KState)
    requires KernelGuest(a, k, w, id, quiet) && id != 0 && KernelOk(a, k)
    requires KernelRun(a, w, ops + [Space(Destroy(id))], z)
    requires forall op :: op in ops ==> KernelUses(op, id) && (quiet ==> NoFrameTraffic(op))
    ensures Departed(a, k, z, id, quiet)
    decreases |ops|
  {
    hide KernelOk, KernelEnabled, KernelExec, KernelGuest, Departed, KernelUses, NoFrameTraffic;
    var all := ops + [Space(Destroy(id))];
    if ops == [] {
      assert all[1..] == [];
      KernelGuestLeaves(a, k, w, id, quiet);
    } else {
      assert all[0] == ops[0] && all[1..] == ops[1..] + [Space(Destroy(id))];
      KernelGuestStep(a, k, w, id, quiet, ops[0]);
      KernelGuestRun(a, k, KernelExec(a, w, ops[0]), id, quiet, ops[1..], z);
    }
  }

  lemma KernelGuestArrives(a: Arch, k: KState, id: nat, quiet: bool)
    requires KernelOk(a, k) && KernelEnabled(a, k, Space(Create(id)))
    ensures KernelGuest(a, k, KernelExec(a, k, Space(Create(id))), id, quiet) && id != 0
  {
    hide Inv, HeapOk, ArenaFrames, Exec, Enabled, PageTheorems.Guest;
    SpaceStep(a, k, Create(id));
    PageTheorems.GuestArrives(a, k.y, id);
    CreateHolds(a, k.y, id);
  }

  lemma CreateHolds(a: Arch, y: Sys, id: nat)
    ensures Exec(a, y, Create(id)).held == y.held
  {
  }

  /** The life of an address space in the kernel as a whole: create it, then map and unmap in it, allocate and
      free heap blocks (its address_space_t among them) and move frames about at will, then destroy it. Every
      page table comes back. The frames in use are those of before, except for frames held by callers and frames
      the heap has grown by; if callers neither took nor gave frames, except for the heap's growth alone. */
  lemma KernelCreateUseDestroy(a: Arch, k: KState, id: nat, ops: seq<KernelOp>, z: KState)
    requires KernelOk(a, k) && KernelRun(a, k, [Space(Create(id))] + ops + [Space(Destroy(id))], z)
    requires forall op :: op in ops ==> KernelUses(op, id)
    ensures Departed(a, k, z, id, forall op :: op in ops ==> NoFrameTraffic(op))
  {
    hide KernelOk, KernelEnabled, KernelExec, KernelGuest, Departed, KernelUses, NoFrameTraffic;
    var quiet := forall op :: op in ops ==> NoFrameTraffic(op);
    var all := [Space(Create(id))] + ops + [Space(Destroy(id))];
    assert all[0] == Space(Create(id)) && all[1..] == ops + [Space(Destroy(id))];
    KernelGuestArrives(a, k, id, quiet);
    KernelGuestRun(a, k, KernelExec(a, k, all[0]), id, quiet, ops, z);
  }
}

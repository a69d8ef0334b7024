/** The theorems about whole runs of the virtual memory manager. */
module PageTheorems {
  import opened Pmm
  import opened PageTable
  import opened PageAddress
  import opened PageTree
  import opened PageOps
  import opened PageClone
  import opened PageRuns

  function Run(a: Arch, y: Sys, ops: seq<Op>): Sys
    decreases |ops|
  {
    if ops == [] then y else Run(a, Exec(a, y, ops[0]), ops[1..])
  }

  /** Every operation of the run is one its caller may make, with frames enough for its tables. */
  ghost predicate RunEnabled(a: Arch, y: Sys, ops: seq<Op>)
    decreases |ops|
  {
    ops == [] || (0 in y.roots && Enabled(a, y, ops[0]) && RunEnabled(a, Exec(a, y, ops[0]), ops[1..]))
  }

  ghost function AbstractRun(a: Arch, p: map<nat, PageMap>, ops: seq<Op>): map<nat, PageMap>
    decreases |ops|
  {
    if ops == [] then p else AbstractRun(a, AbstractExec(a, p, ops[0]), ops[1..])
  }

  /** In every reachable state the used frames are partitioned: held, or a table of exactly one space at
      exactly one position of its tree ... */
  lemma {:induction false} RunKeepsInv(a: Arch, y: Sys, ops: seq<Op>)
    requires Inv(a, y) && RunEnabled(a, y, ops)
    ensures Inv(a, Run(a, y, ops))
    decreases |ops|
  {
    hide Inv, Exec, Enabled;
    if ops != [] {
      StepKeeps(a, y, ops[0]);
      RunKeepsInv(a, Exec(a, y, ops[0]), ops[1..]);
    }
  }

  /** ... and every space translates as its own independent page map, whatever the others do. */
  lemma {:induction false} RunRefines(a: Arch, y: Sys, p: map<nat, PageMap>, ops: seq<Op>)
    requires Inv(a, y) && RunEnabled(a, y, ops) && Represents(a, y, p)
    ensures Inv(a, Run(a, y, ops)) && Represents(a, Run(a, y, ops), AbstractRun(a, p, ops))
    decreases |ops|
  {
    hide Inv, Exec, AbstractExec, Represents, Enabled;
    if ops != [] {
      StepKeeps(a, y, ops[0]);
      StepRefines(a, y, p, ops[0]);
      RunRefines(a, Exec(a, y, ops[0]), AbstractExec(a, p, ops[0]), ops[1..]);
    }
  }

  /** The page maps the spaces of y stand for. */
  ghost function Maps(a: Arch, y: Sys): map<nat, PageMap> {
    map id | id in y.roots :: (v: U64Value) => Look(a, y.s.mem, y.roots[id], v)
  }

  /** Whole-run refinement: after any run, every address of every space translates as the abstract run,
      which treats the spaces as unrelated maps, says. */
  lemma WholeRun(a: Arch, y: Sys, ops: seq<Op>, id: nat, v: U64Value)
    requires Inv(a, y) && RunEnabled(a, y, ops)
    ensures var z := Run(a, y, ops);
            var p := AbstractRun(a, Maps(a, y), ops);
            && (id in z.roots <==> id in p)
            && (id in z.roots ==>
                  && Look(a, z.s.mem, z.roots[id], v) == p[id](v)
                  && Translate(a, Look(a, z.s.mem, z.roots[id], v), v) == Translate(a, p[id](v), v))
  {
    hide Look, Inv, Exec, AbstractExec, Enabled;
    RunRefines(a, y, Maps(a, y), ops);
  }

  /** How the walk of u in space id ends, and the address vmm_translate gives for it. */
  function Seen(a: Arch, y: Sys, id: nat, u: U64Value): Hit {
    if id in y.roots then Look(a, y.s.mem, y.roots[id], u) else Miss
  }

  function Given(a: Arch, y: Sys, id: nat, u: U64Value): nat {
    Translate(a, Seen(a, y, id, u), u)
  }

  predicate SameNumber(a: Arch, u: U64Value, v: U64Value) {
    u / 4096 % Pages(Levels(a)) == v / 4096 % Pages(Levels(a))
  }

  /** vmm_map then vmm_translate: every address of v's page goes to phys rounded down plus its own page offset,
      every other address goes where it went, unless a block or huge leaf stops the walk, when nothing changes.
      Without PRESENT the page is cleared on x86_64 and left alone on AArch64. */
  lemma MapThenTranslate(a: Arch, y: Sys, id: nat, v: U64Value, phys: U64Value, flags: Flags, u: U64Value)
    requires 0 in y.roots && Enabled(a, y, Map(id, v, phys, flags)) && Inv(a, y)
    ensures Given(a, Exec(a, y, Map(id, v, phys, flags)), id, u)
         == if !SameNumber(a, u, v) || Stops(Seen(a, y, id, v)) then Given(a, y, id, u)
            else if PresentFlag(flags) then PhysFrame(a, phys) * 4096 + u % 4096
            else if a == X86 then 0 else Given(a, y, id, u)
  {
    hide Inv, Look, MapPage, Pages, SamePage, LeafEntry, FrameOf, PhysFrame;
    StepMap(a, y, id, v, phys, flags);
    SamePageIff(u, v, Levels(a));
    LeafEntryFacts(a, phys, flags);
  }

  /** vmm_unmap removes exactly v's page, and nothing when a block or huge leaf stops the walk. */
  lemma UnmapThenTranslate(a: Arch, y: Sys, id: nat, v: U64Value, u: U64Value)
    requires id in y.roots && Inv(a, y)
    ensures Given(a, Exec(a, y, Unmap(id, v)), id, u)
         == if !SameNumber(a, u, v) || Stops(Seen(a, y, id, v)) then Given(a, y, id, u) else 0
  {
    hide Inv, Look, UnmapPage, Pages, SamePage, FrameOf;
    StepUnmap(a, y, id, v);
    SamePageIff(u, v, Levels(a));
  }

  /** vmm_translate answers 0 not only for what is unmapped: also for everything a block or huge leaf maps,
      and for the first byte of frame 0. */
  lemma TranslateZeroIff(a: Arch, h: Hit, v: U64Value)
    ensures Translate(a, h, v) == 0 <==> h.Miss? || Stops(h) || (FrameOf(a, h.word) == 0 && v % 4096 == 0)
  {
  }

  /** Spaces do not share later mappings: what vmm_map does in the kernel's space once space id exists is seen
      there, and id keeps what the kernel's space had. */
  lemma MapAfterCreate(a: Arch, y: Sys, id: nat, v: U64Value, phys: U64Value, flags: Flags, u: U64Value)
    requires 0 in y.roots && Enabled(a, y, Create(id)) && Inv(a, y)
    requires var y1 := Exec(a, y, Create(id)); 0 in y1.roots && Enabled(a, y1, Map(0, v, phys, flags))
    ensures var z := Exec(a, Exec(a, y, Create(id)), Map(0, v, phys, flags));
            && Seen(a, z, id, u) == Seen(a, y, 0, u)
            && Seen(a, z, 0, u) == Mapped(a, Seen(a, y, 0, u), Seen(a, y, 0, v), SamePage(u, v, Levels(a)), phys, flags)
  {
    hide Inv, Look, Clone, MapPage, LeafEntry, Tables, Avail, Footprint, SpaceOk, SamePage, Mapped;
    StepCreate(a, y, id);
    var y1 := Exec(a, y, Create(id));
    assert SpaceKept(a, y.s.mem, y1.s.mem, y.roots[0]);
    StepMap(a, y1, 0, v, phys, flags);
    var z := Exec(a, y1, Map(0, v, phys, flags));
    assert SpaceKept(a, y1.s.mem, z.s.mem, y1.roots[id]);
  }

  lemma UnmapAfterCreate(a: Arch, y: Sys, id: nat, v: U64Value, u: U64Value)
    requires 0 in y.roots && Enabled(a, y, Create(id)) && Inv(a, y)
    ensures var z := Exec(a, Exec(a, y, Create(id)), Unmap(0, v));
            && Seen(a, z, id, u) == Seen(a, y, 0, u)
            && Seen(a, z, 0, u) == Unmapped(Seen(a, y, 0, u), Seen(a, y, 0, v), SamePage(u, v, Levels(a)))
  {
    hide Inv, Look, Clone, UnmapPage, Tables, Avail, Footprint, SpaceOk, SamePage, Unmapped;
    StepCreate(a, y, id);
    var y1 := Exec(a, y, Create(id));
    StepMeans(a, y, y1, id);
    assert SpaceKept(a, y.s.mem, y1.s.mem, y.roots[0]);
    StepUnmap(a, y1, 0, v);
    var z := Exec(a, y1, Unmap(0, v));
    assert SpaceKept(a, y1.s.mem, z.s.mem, y1.roots[id]);
  }

  /** After a create and a vmm_map in the kernel's space the two spaces agree on u exactly when the map was not
      about u's page, was stopped by a block, or left there what was there before. */
  lemma MapSharedIff(a: Arch, y: Sys, id: nat, v: U64Value, phys: U64Value, flags: Flags, u: U64Value)
    requires 0 in y.roots && Enabled(a, y, Create(id)) && Inv(a, y)
    requires var y1 := Exec(a, y, Create(id)); 0 in y1.roots && Enabled(a, y1, Map(0, v, phys, flags))
    ensures var z := Exec(a, Exec(a, y, Create(id)), Map(0, v, phys, flags));
            Seen(a, z, 0, u) == Seen(a, z, id, u)
            <==> !SameNumber(a, u, v) || Stops(Seen(a, y, 0, v))
                 || (if PresentFlag(flags) then Seen(a, y, 0, u) == Leaf(1, LeafEntry(a, phys, flags))
                     else a == A64 || Seen(a, y, 0, u) == Miss)
  {
    hide Inv, Look, Exec, Enabled, LeafEntry, Pages, SamePage;
    MapAfterCreate(a, y, id, v, phys, flags, u);
    SamePageIff(u, v, Levels(a));
  }

  /** After a create and a vmm_unmap in the kernel's space they agree on u exactly when the unmap was not about
      u's page, was stopped by a block, or found nothing mapped there: otherwise id keeps the stale page. */
  lemma UnmapSharedIff(a: Arch, y: Sys, id: nat, v: U64Value, u: U64Value)
    requires 0 in y.roots && Enabled(a, y, Create(id)) && Inv(a, y)
    ensures var z := Exec(a, Exec(a, y, Create(id)), Unmap(0, v));
            Seen(a, z, 0, u) == Seen(a, z, id, u)
            <==> !SameNumber(a, u, v) || Stops(Seen(a, y, 0, v)) || Seen(a, y, 0, u) == Miss
  {
    hide Inv, Look, Exec, Enabled, Pages, SamePage;
    UnmapAfterCreate(a, y, id, v, u);
    SamePageIff(u, v, Levels(a));
  }

  // ---------------------------------------------------------------- isolation

  predicate Touches(op: Op, id: nat) {
    (op.Create? || op.Destroy? || op.Map? || op.Unmap?) && op.id == id
  }

  lemma KeptTwice(a: Arch, m: Memory, n: Memory, o: Memory, root: nat)
    requires SpaceKept(a, m, n, root) && SpaceKept(a, n, o, root)
    ensures SpaceKept(a, m, o, root)
  {
    hide Footprint, Look, SpaceOk;
  }

  /** Whatever happens to the other spaces and to the frames outside page tables, a space no operation
      touches keeps its root, its tables, their contents and all its translations. */
  lemma {:induction false} Isolation(a: Arch, y: Sys, ops: seq<Op>, id: nat)
    requires Inv(a, y) && RunEnabled(a, y, ops) && id in y.roots
    requires forall op :: op in ops ==> !Touches(op, id)
    ensures var z := Run(a, y, ops);
            id in z.roots && z.roots[id] == y.roots[id] && SpaceKept(a, y.s.mem, z.s.mem, y.roots[id])
    decreases |ops|
  {
    hide Exec, Enabled, SpaceKept;
    if ops == [] {
      KeepSpace(a, y.s.mem, y.s.mem, y.roots[id]);
    } else {
      assert !Touches(ops[0], id);
      StepKeeps(a, y, ops[0]);
      var y1 := Exec(a, y, ops[0]);
      Isolation(a, y1, ops[1..], id);
      KeptTwice(a, y.s.mem, y1.s.mem, Run(a, y1, ops[1..]).s.mem, y.roots[id]);
    }
  }

  // ---------------------------------------------------------------- blocks are never disturbed

  lemma {:induction false} WalkSamePage(a: Arch, m: Memory, f: nat, d: Depth, u: U64Value, v: U64Value)
    requires SamePage(u, v, d)
    ensures Walk(a, m, f, d, u) == Walk(a, m, f, d, v)
    decreases d
  {
    var w := Get(m, f, Index(v, d));
    if d > 1 && IsTable(a, w) {
      WalkSamePage(a, m, FrameOf(a, w), d - 1, u, v);
    }
  }

  /** Every space maps v to the block or huge leaf h. */
  ghost predicate BlockEverywhere(a: Arch, y: Sys, v: U64Value, h: Hit) {
    Stops(h) && forall id :: id in y.roots ==> Look(a, y.s.mem, y.roots[id], v) == h
  }

  lemma StepBlock(a: Arch, y: Sys, op: Op, v: U64Value, h: Hit)
    requires Inv(a, y) && Enabled(a, y, op) && BlockEverywhere(a, y, v, h)
    ensures BlockEverywhere(a, Exec(a, y, op), v, h)
  {
    hide Inv, Foot, Tree, Walk, MapPage, UnmapPage, Clone, Release, SpaceOk, Footprint, SamePage;
    var z := Exec(a, y, op);
    StepKeeps(a, y, op);
    match op {
      case Create(id) => StepCreate(a, y, id);
      case Destroy(id) => if id != 0 { StepDestroy(a, y, id); }
      case Map(id, u, phys, flags) =>
        StepMap(a, y, id, u, phys, flags);
        if SamePage(v, u, Levels(a)) { WalkSamePage(a, y.s.mem, y.roots[id], Levels(a), v, u); }
      case Unmap(id, u) =>
        StepUnmap(a, y, id, u);
        if SamePage(v, u, Levels(a)) { WalkSamePage(a, y.s.mem, y.roots[id], Levels(a), v, u); }
      case _ =>
    }
    forall id | id in z.roots
      ensures Look(a, z.s.mem, z.roots[id], v) == h
    {
      if id != Named(op) {
        assert SpaceKept(a, y.s.mem, z.s.mem, y.roots[id]);
      }
    }
  }

  /** A block that all spaces share outlives every run, in every space then alive. */
  lemma {:induction false} BlocksSurvive(a: Arch, y: Sys, ops: seq<Op>, v: U64Value, h: Hit)
    requires Inv(a, y) && RunEnabled(a, y, ops) && BlockEverywhere(a, y, v, h)
    ensures BlockEverywhere(a, Run(a, y, ops), v, h)
    decreases |ops|
  {
    hide Inv, Exec, Enabled, BlockEverywhere;
    if ops != [] {
      StepKeeps(a, y, ops[0]);
      StepBlock(a, y, ops[0], v, h);
      BlocksSurvive(a, Exec(a, y, ops[0]), ops[1..], v, h);
    }
  }

  // ---------------------------------------------------------------- access rights

  /** On x86_64 the hardware's AND of the rights along a walk is, in every reachable state, just the
      leaf's own W and U bits: widening a shared table for a user page exposes no other page. */
  lemma RightsAreTheLeafs(y: Sys, ops: seq<Op>, id: nat, v: U64Value)
    requires Inv(X86, y) && RunEnabled(X86, y, ops)
    requires id in Run(X86, y, ops).roots
    ensures var z := Run(X86, y, ops);
            var h := Look(X86, z.s.mem, z.roots[id], v);
            h.Leaf? ==>
              && (GrantsWrite(X86, z.s.mem, z.roots[id], 4, v) && Bit1(h.word)) == Bit1(h.word)
              && (GrantsUser(X86, z.s.mem, z.roots[id], 4, v) && Bit2(h.word)) == Bit2(h.word)
  {
    hide Walk, GrantsUser, GrantsWrite, Bit1, Bit2, Exec;
    RunKeepsInv(X86, y, ops);
    var z := Run(X86, y, ops);
    assert SpaceOk(X86, z.s.mem, z.roots[id]);
    assert RightsOk(X86, z.s.mem, z.roots[id], v);
  }

  // ---------------------------------------------------------------- create, use, destroy

  /** While only space id is used after its creation from y: it alone accounts for what is new. */
  ghost predicate Visiting(a: Arch, y: Sys, w: Sys, id: nat) {
    && Inv(a, w) && id in w.roots && w.roots - {id} == y.roots && w.held == y.held
    && Agree(y.s.mem, w.s.mem, y.s.used)
    && w.s.used == y.s.used + FootprintOf(a, w, id) && y.s.used !! FootprintOf(a, w, id)
  }

  lemma VisitCreate(a: Arch, y: Sys, id: nat)
    requires Inv(a, y) && Enabled(a, y, Create(id))
    ensures Visiting(a, y, Exec(a, y, Create(id)), id) && id != 0
  {
    hide Foot, Tree, Walk, Clone, SpaceOk, Tables, Free;
    StepCreate(a, y, id);
    OwnIsUsed(a, y, 0);
    assert Tree(a, y.s.mem, y.roots[0], Levels(a)) by { SpaceIsTree(a, y, 0); }
    CloneFacts(a, y.s, y.roots[0], Levels(a));
    assert (y.roots[id := Exec(a, y, Create(id)).roots[id]]) - {id} == y.roots;
  }

  lemma SpaceIsTree(a: Arch, y: Sys, id: nat)
    requires Inv(a, y) && id in y.roots
    ensures Tree(a, y.s.mem, y.roots[id], Levels(a))
  {
    assert SpaceOk(a, y.s.mem, y.roots[id]);
  }

  lemma VisitStep(a: Arch, y: Sys, w: Sys, id: nat, op: Op)
    requires Visiting(a, y, w, id) && Enabled(a, w, op) && (op.Map? || op.Unmap?) && op.id == id
    ensures Visiting(a, y, Exec(a, w, op), id)
  {
    hide Foot, Tree, Walk, MapPage, UnmapPage, SpaceOk, Free;
    OwnIsUsed(a, w, id);
    SpaceIsTree(a, w, id);
    StepKeeps(a, w, op);
    match op
    case Map(_, v, phys, flags) => MapGrows(a, w.s, w.roots[id], Levels(a), v, phys, flags);
    case Unmap(_, v) => UnmapKeeps(a, w.s.mem, w.roots[id], Levels(a), v);
  }

  lemma {:induction false} VisitRun(a: Arch, y: Sys, w: Sys, id: nat, ops: seq<Op>)
    requires Visiting(a, y, w, id) && RunEnabled(a, w, ops + [Destroy(id)]) && id != 0
    requires forall op :: op in ops ==> (op.Map? || op.Unmap?) && op.id == id
    ensures var z := Run(a, w, ops + [Destroy(id)]);
            && z.roots == y.roots && z.held == y.held && z.s.used == y.s.used
            && Agree(y.s.mem, z.s.mem, y.s.used)
    decreases |ops|
  {
    hide Inv, Exec, Enabled, FootprintOf;
    var all := ops + [Destroy(id)];
    if ops == [] {
      VisitEnd(a, y, w, id);
      assert all[1..] == [];
    } else {
      assert all[0] == ops[0] && all[1..] == ops[1..] + [Destroy(id)];
      VisitStep(a, y, w, id, ops[0]);
      VisitRun(a, y, Exec(a, w, ops[0]), id, ops[1..]);
    }
  }

  lemma VisitEnd(a: Arch, y: Sys, w: Sys, id: nat)
    requires Visiting(a, y, w, id) && id != 0
    ensures var z := Exec(a, w, Destroy(id));
            && z.roots == y.roots && z.held == y.held && z.s.used == y.s.used && z.s.mem == w.s.mem
  {
    StepDestroy(a, w, id);
  }

  /** With nothing but maps and unmaps in between, allocator and memory end exactly as they were: every table
      frame is back, the clone's and those made on the way, and no frame that was in use was written. */
  lemma CreateMapDestroy(a: Arch, y: Sys, id: nat, ops: seq<Op>)
    requires Inv(a, y) && RunEnabled(a, y, [Create(id)] + ops + [Destroy(id)])
    requires forall op :: op in ops ==> (op.Map? || op.Unmap?) && op.id == id
    ensures var z := Run(a, y, [Create(id)] + ops + [Destroy(id)]);
            && z.roots == y.roots && z.held == y.held && z.s.used == y.s.used && Avail(z.s) == Avail(y.s)
            && Agree(y.s.mem, z.s.mem, y.s.used)
  {
    hide Inv, Exec, Enabled, FootprintOf, Visiting, Free;
    var all := [Create(id)] + ops + [Destroy(id)];
    assert all[0] == Create(id) && all[1..] == ops + [Destroy(id)];
    VisitCreate(a, y, id);
    VisitRun(a, y, Exec(a, y, Create(id)), id, ops);
  }

  // ---------------------------------------------------------------- ... among everything its callers do

  /** While space id lives: it alone came on top of y's spaces, and they are as they were. */
  ghost predicate Guest(a: Arch, y: Sys, w: Sys, id: nat) {
    Inv(a, w) && id in w.roots && id !in y.roots && w.roots - {id} == y.roots && OthersKept(a, y, w, id)
  }

  lemma BothKept(a: Arch, y: Sys, z: Sys, w: Sys, id: nat)
    requires OthersKept(a, y, z, id) && OthersKept(a, z, w, id)
    ensures OthersKept(a, y, w, id)
  {
    hide SpaceKept;
    forall other | other != id && other in y.roots
      ensures SpaceKept(a, y.s.mem, w.s.mem, y.roots[other])
    {
      KeptTwice(a, y.s.mem, z.s.mem, w.s.mem, y.roots[other]);
    }
  }

  /** A step that leaves every space alone leaves all but one alone. */
  lemma AllKept(a: Arch, w: Sys, z: Sys, id: nat)
    requires OtherOk(a, w, z)
    ensures Inv(a, z) && OthersKept(a, w, z, id) && z.roots == w.roots
  {
    hide Inv, SpaceKept;
  }

  lemma GuestStays(a: Arch, y: Sys, w: Sys, z: Sys, id: nat)
    requires Guest(a, y, w, id) && Inv(a, z) && OthersKept(a, w, z, id) && z.roots == w.roots
    ensures Guest(a, y, z, id)
  {
    hide Inv, OthersKept;
    BothKept(a, y, w, z, id);
  }

  lemma GuestArrives(a: Arch, y: Sys, id: nat)
    requires 0 in y.roots && Enabled(a, y, Create(id)) && Inv(a, y)
    ensures Guest(a, y, Exec(a, y, Create(id)), id) && id != 0
  {
    hide Inv, Clone, SpaceKept, Tables, Avail;
    StepCreate(a, y, id);
    assert (y.roots[id := Exec(a, y, Create(id)).roots[id]]) - {id} == y.roots;
  }

  /** Maps and unmaps in space id, and any traffic in frames that are no tables. */
  predicate UsesOnly(op: Op, id: nat) {
    ((op.Map? || op.Unmap?) && op.id == id) || op.Take? || op.Give? || op.Store?
  }

  lemma GuestStep(a: Arch, y: Sys, w: Sys, id: nat, op: Op)
    requires Guest(a, y, w, id) && UsesOnly(op, id) && 0 in w.roots && Enabled(a, w, op)
    ensures Guest(a, y, Exec(a, w, op), id)
  {
    hide Inv, SpaceKept, MapPage, UnmapPage, Missing, Avail, OthersKept, FirstRun, OtherOk;
    var z := Exec(a, w, op);
    match op {
      case Map(_, _, _, _) => StepKeeps(a, w, op); StepMeans(a, w, z, id);
      case Unmap(_, _) => StepKeeps(a, w, op); StepMeans(a, w, z, id);
      case Take(count) => StepTake(a, w, count); AllKept(a, w, z, id);
      case Give(frame) => StepGive(a, w, frame); AllKept(a, w, z, id);
      case Store(frame, i, v) => StepStore(a, w, frame, i, v); AllKept(a, w, z, id);
      case _ =>
    }
    GuestStays(a, y, w, z, id);
  }

  lemma StepMeans(a: Arch, w: Sys, z: Sys, id: nat)
    requires StepOk(a, w, z, id)
    ensures Inv(a, z) && OthersKept(a, w, z, id)
  {
    hide Inv, OthersKept;
  }

  lemma OwnedSame(a: Arch, y: Sys, w: Sys, id: nat)
    requires w.roots == y.roots && OthersKept(a, y, w, id) && id !in y.roots
    ensures Owned(a, w) == Owned(a, y)
  {
    hide Footprint, Look, SpaceOk;
    forall other | other in y.roots
      ensures Footprint(a, w.s.mem, y.roots[other]) == Footprint(a, y.s.mem, y.roots[other])
    {
      assert SpaceKept(a, y.s.mem, w.s.mem, y.roots[other]);
    }
  }

  lemma HeldApart(a: Arch, y: Sys)
    requires Inv(a, y)
    ensures y.s.used == y.held + Owned(a, y) && y.held !! Owned(a, y) && y.s.used - y.held == Owned(a, y)
  {
    hide SpaceOk, Footprint, Sane;
  }

  lemma GuestLeaves(a: Arch, y: Sys, w: Sys, id: nat)
    requires Guest(a, y, w, id) && id != 0 && Inv(a, y)
    ensures var z := Exec(a, w, Destroy(id));
            && Inv(a, z) && z.roots == y.roots && z.held == w.held && OthersKept(a, y, z, id)
            && z.s.used - z.held == y.s.used - y.held && z.s.used == y.s.used - y.held + z.held
  {
    hide Inv, OthersKept, Release, Footprint, Owned;
    var z := Exec(a, w, Destroy(id));
    StepDestroy(a, w, id);
    BothKept(a, y, w, z, id);
    OwnedSame(a, y, z, id);
    HeldApart(a, y);
    HeldApart(a, z);
  }

  lemma {:induction false} GuestRun(a: Arch, y: Sys, w: Sys, id: nat, ops: seq<Op>)
    requires Guest(a, y, w, id) && id != 0 && Inv(a, y) && RunEnabled(a, w, ops + [Destroy(id)])
    requires forall op :: op in ops ==> UsesOnly(op, id)
    ensures var z := Run(a, w, ops + [Destroy(id)]);
            && Inv(a, z) && z.roots == y.roots && OthersKept(a, y, z, id)
            && z.s.used - z.held == y.s.used - y.held && z.s.used == y.s.used - y.held + z.held
    decreases |ops|
  {
    hide Inv, Exec, Enabled, Guest, OthersKept, UsesOnly;
    var all := ops + [Destroy(id)];
    if ops == [] {
      GuestLeaves(a, y, w, id);
      assert all[1..] == [];
    } else {
      assert all[0] == ops[0] && all[1..] == ops[1..] + [Destroy(id)];
      GuestStep(a, y, w, id, ops[0]);
      GuestRun(a, y, Exec(a, w, ops[0]), id, ops[1..]);
    }
  }

  /** Creating a space, mapping and unmapping in it at will with frames taken, written and given back in
      between, and destroying it: every table frame comes back, the clone's and those made on the way, so that
      the frames in use are those of before except for what is held; every other space is as it was. */
  lemma CreateUseDestroy(a: Arch, y: Sys, id: nat, ops: seq<Op>)
    requires Inv(a, y) && RunEnabled(a, y, [Create(id)] + ops + [Destroy(id)])
    requires forall op :: op in ops ==> UsesOnly(op, id)
    ensures var z := Run(a, y, [Create(id)] + ops + [Destroy(id)]);
            && Inv(a, z) && z.roots == y.roots && OthersKept(a, y, z, id)
            && z.s.used - z.held == y.s.used - y.held && z.s.used == y.s.used - y.held + z.held
  {
    hide Inv, Exec, Enabled, Guest, OthersKept, UsesOnly;
    var all := [Create(id)] + ops + [Destroy(id)];
    assert all[0] == Create(id) && all[1..] == ops + [Destroy(id)];
    GuestArrives(a, y, id);
    GuestRun(a, y, Exec(a, y, Create(id)), id, ops);
  }
}

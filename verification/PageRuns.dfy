/** Whole runs: any sequence of create, destroy, map, unmap, on any number of address spaces, mixed with
    frames taken, given back and written by the rest of the kernel. */
module PageRuns {
  import opened Pmm
  import opened PageTable
  import opened PageTree
  import opened PageOps
  import opened PageClone

  /** Address space 0 is the kernel's. `held` are the used frames that are no page table: reserved memory,
      heap arenas, and data frames of their callers. */
  datatype Sys = Sys(s: Phys, roots: map<nat, nat>, held: set<nat>)

  datatype Op =
    | Create(id: nat)
    | Destroy(id: nat)
    | Map(id: nat, v: U64Value, phys: U64Value, flags: Flags)
    | Unmap(id: nat, v: U64Value)
    | Take(count: nat)
    | Give(frame: nat)
    | Store(frame: nat, i: nat, w: Word)

  ghost function Footprint(a: Arch, m: Memory, root: nat): set<nat> {
    Foot(a, m, root, Levels(a))
  }

  function Look(a: Arch, m: Memory, root: nat, v: U64Value): Hit {
    Walk(a, m, root, Levels(a), v)
  }

  /** Every table on the way is writable, and a user leaf has the user bit on its whole path. */
  ghost predicate RightsOk(a: Arch, m: Memory, root: nat, v: U64Value) {
    a == X86 ==>
      && GrantsWrite(a, m, root, Levels(a), v)
      && (Look(a, m, root, v).Leaf? && Bit2(Look(a, m, root, v).word) ==> GrantsUser(a, m, root, Levels(a), v))
  }

  ghost predicate SpaceOk(a: Arch, m: Memory, root: nat) {
    Tree(a, m, root, Levels(a)) && forall v :: RightsOk(a, m, root, v)
  }

  /** Used frames are partitioned: held, or a table of exactly one space at exactly one tree position. */
  ghost predicate Inv(a: Arch, y: Sys) {
    && Sane(y.s) && 0 in y.roots && 0 in y.held
    && (forall id :: id in y.roots ==> SpaceOk(a, y.s.mem, y.roots[id]))
    && (forall id :: id in y.roots ==> Footprint(a, y.s.mem, y.roots[id]) !! y.held)
    && (forall id, other :: id in y.roots && other in y.roots && id != other ==>
          Footprint(a, y.s.mem, y.roots[id]) !! Footprint(a, y.s.mem, y.roots[other]))
    && y.s.used == y.held + Owned(a, y)
  }

  /** The page tables of all spaces. */
  ghost function Owned(a: Arch, y: Sys): set<nat> {
    set id, x | id in y.roots && x in Footprint(a, y.s.mem, y.roots[id]) :: x
  }

  ghost predicate Enabled(a: Arch, y: Sys, op: Op)
    requires 0 in y.roots
  {
    match op
    case Create(id) => id !in y.roots && Tables(a, y.s.mem, y.roots[0], Levels(a)) <= Avail(y.s)
    case Destroy(id) => id in y.roots
    case Map(id, v, _, _) => id in y.roots && Missing(a, y.s.mem, y.roots[id], Levels(a), v) <= Avail(y.s)
    case Unmap(id, v) => id in y.roots
    case Take(count) => true
    case Give(frame) => frame in y.held && frame != 0
    case Store(frame, i, w) => frame in y.held
  }

  function Exec(a: Arch, y: Sys, op: Op): Sys {
    match op
    case Create(id) =>
      if 0 !in y.roots then y else
      var (t, g) := Clone(a, y.s, y.roots[0], Levels(a));
      y.(s := t, roots := y.roots[id := g])
    case Destroy(id) =>
      if id == 0 || id !in y.roots then y
      else y.(s := y.s.(used := Release(a, y.s.mem, y.s.used, y.roots[id], Levels(a))), roots := y.roots - {id})
    case Map(id, v, phys, flags) =>
      if id !in y.roots then y
      else y.(s := MapPage(a, y.s, y.roots[id], Levels(a), v, phys, flags))
    case Unmap(id, v) =>
      if id !in y.roots then y
      else y.(s := y.s.(mem := UnmapPage(a, y.s.mem, y.roots[id], Levels(a), v)))
    case Take(count) =>
      (match FirstRun(y.s.used, |y.s.mem|, count, 0)
       case None => y
       case Some(start) =>
         y.(s := y.s.(used := y.s.used + Span(start, count)), held := y.held + Span(start, count)))
    case Give(frame) => y.(s := y.s.(used := y.s.used - {frame}), held := y.held - {frame})
    case Store(frame, i, w) => y.(s := y.s.(mem := Put(y.s.mem, frame, i, w)))
  }

  // ---------------------------------------------------------------- the abstract page maps

  type PageMap = U64Value -> Hit

  /** Each operation on the spaces as an operation on independent page maps; the others are invisible. */
  ghost function AbstractExec(a: Arch, p: map<nat, PageMap>, op: Op): map<nat, PageMap> {
    match op
    case Create(id) => if 0 in p then p[id := p[0]] else p
    case Destroy(id) => if id == 0 then p else p - {id}
    case Map(id, v, phys, flags) =>
      if id !in p then p
      else
        var pm := p[id];
        p[id := (u: U64Value) => Mapped(a, pm(u), pm(v), SamePage(u, v, Levels(a)), phys, flags)]
    case Unmap(id, v) =>
      if id !in p then p
      else
        var pm := p[id];
        p[id := (u: U64Value) => Unmapped(pm(u), pm(v), SamePage(u, v, Levels(a)))]
    case _ => p
  }

  ghost predicate Represents(a: Arch, y: Sys, p: map<nat, PageMap>) {
    && p.Keys == y.roots.Keys
    && forall id, v :: id in y.roots ==> Look(a, y.s.mem, y.roots[id], v) == p[id](v)
  }

  // ---------------------------------------------------------------- one step

  /** Nothing about the space at root can tell n from m. */
  ghost predicate SpaceKept(a: Arch, m: Memory, n: Memory, root: nat) {
    && SpaceOk(a, n, root) && Footprint(a, n, root) == Footprint(a, m, root)
    && Agree(m, n, Footprint(a, m, root))
    && forall v :: Look(a, n, root, v) == Look(a, m, root, v)
  }

  lemma KeepSpace(a: Arch, m: Memory, n: Memory, root: nat)
    requires SpaceOk(a, m, root) && Agree(m, n, Footprint(a, m, root))
    ensures SpaceKept(a, m, n, root)
  {
    Frame(a, m, n, root, Levels(a));
    forall v
      ensures Look(a, n, root, v) == Look(a, m, root, v) && RightsOk(a, n, root, v)
    {
      FrameWalk(a, m, n, root, Levels(a), v);
      assert RightsOk(a, m, root, v);
    }
  }

  ghost function FootprintOf(a: Arch, y: Sys, id: nat): set<nat> {
    if id in y.roots then Footprint(a, y.s.mem, y.roots[id]) else {}
  }

  /** Every space but k is in z exactly as it was in y. */
  ghost predicate OthersKept(a: Arch, y: Sys, z: Sys, k: nat) {
    forall id :: id != k ==>
      && (id in z.roots <==> id in y.roots)
      && (id in y.roots ==> z.roots[id] == y.roots[id] && SpaceKept(a, y.s.mem, z.s.mem, y.roots[id]))
  }

  /** Writing only frames of space k, or frames that were free or held, keeps every other space. */
  lemma KeepOthers(a: Arch, y: Sys, z: Sys, k: nat, written: set<nat>)
    requires Inv(a, y) && |z.s.mem| == |y.s.mem|
    requires forall x: nat :: x < |y.s.mem| && x !in written ==> z.s.mem[x] == y.s.mem[x]
    requires forall x :: x in written ==> x !in y.s.used || x in y.held || x in FootprintOf(a, y, k)
    requires forall id :: id != k ==> (id in z.roots <==> id in y.roots) && (id in y.roots ==> z.roots[id] == y.roots[id])
    ensures OthersKept(a, y, z, k)
  {
    hide Foot, Tree, Walk;
    forall id | id != k && id in y.roots
      ensures SpaceKept(a, y.s.mem, z.s.mem, y.roots[id])
    {
      assert Footprint(a, y.s.mem, y.roots[id]) <= Owned(a, y);
      assert Footprint(a, y.s.mem, y.roots[id]) !! FootprintOf(a, y, k);
      KeepSpace(a, y.s.mem, z.s.mem, y.roots[id]);
    }
  }

  /** The invariant holds again once the one changed space k has been accounted for. */
  lemma InvAgain(a: Arch, y: Sys, z: Sys, k: nat)
    requires Inv(a, y) && OthersKept(a, y, z, k)
    requires Sane(z.s) && 0 in z.roots && 0 in z.held
    requires k in z.roots ==> SpaceOk(a, z.s.mem, z.roots[k])
    requires FootprintOf(a, z, k) !! z.held
    requires forall x :: x in y.s.used && x !in y.held && x !in FootprintOf(a, y, k) ==>
               x !in z.held && x !in FootprintOf(a, z, k)
    requires z.s.used == z.held + FootprintOf(a, z, k) + (y.s.used - y.held - FootprintOf(a, y, k))
    ensures Inv(a, z)
  {
    hide Foot, Tree, Walk, SpaceOk, Footprint, Sane;
    forall id | id in z.roots && id != k
      ensures FootprintOf(a, z, id) == FootprintOf(a, y, id)
      ensures FootprintOf(a, z, id) !! z.held && FootprintOf(a, z, id) !! FootprintOf(a, z, k)
      ensures FootprintOf(a, z, id) <= y.s.used - y.held - FootprintOf(a, y, k)
    {
      assert SpaceKept(a, y.s.mem, z.s.mem, y.roots[id]);
      assert FootprintOf(a, y, id) <= Owned(a, y);
      assert FootprintOf(a, y, id) !! y.held;
      assert FootprintOf(a, y, id) !! FootprintOf(a, y, k);
    }
    OwnedAgain(a, y, z, k);
  }

  lemma OwnedAgain(a: Arch, y: Sys, z: Sys, k: nat)
    requires forall id :: id != k ==> FootprintOf(a, z, id) == FootprintOf(a, y, id)
    requires forall id :: id != k && id in y.roots ==> FootprintOf(a, y, id) !! FootprintOf(a, y, k)
    requires forall id :: id in y.roots ==> FootprintOf(a, y, id) !! y.held
    requires y.s.used == y.held + Owned(a, y)
    ensures Owned(a, z) == FootprintOf(a, z, k) + (y.s.used - y.held - FootprintOf(a, y, k))
  {
    hide Footprint;
    forall x
      ensures x in Owned(a, z) <==> x in FootprintOf(a, z, k) || (x in y.s.used && x !in y.held && x !in FootprintOf(a, y, k))
    {
      if x in Owned(a, z) {
        var id :| id in z.roots && x in FootprintOf(a, z, id);
      }
      if x in FootprintOf(a, z, k) {
        assert x in Owned(a, z);
      }
      if x in y.s.used && x !in y.held && x !in FootprintOf(a, y, k) {
        assert x in Owned(a, y);
        var id :| id in y.roots && x in FootprintOf(a, y, id);
        assert x in FootprintOf(a, z, id);
      }
    }
  }

  /** One operation, seen from the space it names: the other spaces keep everything, the invariant holds. */
  ghost predicate StepOk(a: Arch, y: Sys, z: Sys, k: nat) {
    Inv(a, z) && OthersKept(a, y, z, k)
  }

  lemma StepMap(a: Arch, y: Sys, id: nat, v: U64Value, phys: U64Value, flags: Flags)
    requires Inv(a, y) && Enabled(a, y, Map(id, v, phys, flags))
    ensures var z := Exec(a, y, Map(id, v, phys, flags));
            && StepOk(a, y, z, id)
            && Avail(z.s) == Avail(y.s) - Missing(a, y.s.mem, y.roots[id], Levels(a), v)
            && forall u :: Look(a, z.s.mem, y.roots[id], u)
                 == Mapped(a, Look(a, y.s.mem, y.roots[id], u), Look(a, y.s.mem, y.roots[id], v),
                           SamePage(u, v, Levels(a)), phys, flags)
  {
    hide Foot, Tree, Walk, MapPage, SamePage, GrantsUser, GrantsWrite, Bit2, LeafEntry, Free;
    var z := Exec(a, y, Map(id, v, phys, flags));
    var root := y.roots[id];
    OwnIsUsed(a, y, id);
    MapGrows(a, y.s, root, Levels(a), v, phys, flags);
    forall u
      ensures RightsOk(a, z.s.mem, root, u)
      ensures Look(a, z.s.mem, root, u)
                 == Mapped(a, Look(a, y.s.mem, root, u), Look(a, y.s.mem, root, v), SamePage(u, v, Levels(a)), phys, flags)
    {
      MapWalks(a, y.s, root, Levels(a), v, phys, flags, u);
      LeafEntryFacts(a, phys, flags);
      assert RightsOk(a, y.s.mem, root, u);
    }
    KeepOthers(a, y, z, id, Footprint(a, z.s.mem, root));
    InvAgain(a, y, z, id);
  }

  lemma OwnIsUsed(a: Arch, y: Sys, id: nat)
    requires Inv(a, y) && id in y.roots
    ensures Footprint(a, y.s.mem, y.roots[id]) <= y.s.used && y.held <= y.s.used
    ensures Footprint(a, y.s.mem, y.roots[id]) !! y.held
  {
    assert Footprint(a, y.s.mem, y.roots[id]) <= Owned(a, y);
  }

  lemma StepUnmap(a: Arch, y: Sys, id: nat, v: U64Value)
    requires Inv(a, y) && id in y.roots
    ensures var z := Exec(a, y, Unmap(id, v));
            && StepOk(a, y, z, id)
            && forall u :: Look(a, z.s.mem, y.roots[id], u)
                 == Unmapped(Look(a, y.s.mem, y.roots[id], u), Look(a, y.s.mem, y.roots[id], v), SamePage(u, v, Levels(a)))
  {
    hide Foot, Tree, Walk, UnmapPage, SamePage, GrantsUser, GrantsWrite, Bit2;
    var z := Exec(a, y, Unmap(id, v));
    var root := y.roots[id];
    OwnIsUsed(a, y, id);
    UnmapKeeps(a, y.s.mem, root, Levels(a), v);
    forall u
      ensures RightsOk(a, z.s.mem, root, u)
      ensures Look(a, z.s.mem, root, u)
                 == Unmapped(Look(a, y.s.mem, root, u), Look(a, y.s.mem, root, v), SamePage(u, v, Levels(a)))
    {
      UnmapWalks(a, y.s.mem, root, Levels(a), v, u);
      assert RightsOk(a, y.s.mem, root, u);
    }
    KeepOthers(a, y, z, id, Footprint(a, z.s.mem, root));
    InvAgain(a, y, z, id);
  }

  lemma StepCreate(a: Arch, y: Sys, id: nat)
    requires Inv(a, y) && Enabled(a, y, Create(id))
    ensures var z := Exec(a, y, Create(id));
            && StepOk(a, y, z, id) && id in z.roots && z.roots[id] !in y.s.used
            && Avail(z.s) == Avail(y.s) - Tables(a, y.s.mem, y.roots[0], Levels(a))
            && forall u :: Look(a, z.s.mem, z.roots[id], u) == Look(a, y.s.mem, y.roots[0], u)
  {
    hide Foot, Tree, Walk, Clone, GrantsUser, GrantsWrite, Bit2, Free, Tables;
    var z := Exec(a, y, Create(id));
    OwnIsUsed(a, y, 0);
    CloneFacts(a, y.s, y.roots[0], Levels(a));
    var root := z.roots[id];
    forall u
      ensures RightsOk(a, z.s.mem, root, u)
      ensures Look(a, z.s.mem, root, u) == Look(a, y.s.mem, y.roots[0], u)
    {
      assert SameWalk(a, y.s.mem, y.roots[0], z.s.mem, root, Levels(a), u);
      assert RightsOk(a, y.s.mem, y.roots[0], u);
    }
    KeepOthers(a, y, z, id, Footprint(a, z.s.mem, root));
    InvAgain(a, y, z, id);
  }

  lemma StepDestroy(a: Arch, y: Sys, id: nat)
    requires Inv(a, y) && id in y.roots && id != 0
    ensures var z := Exec(a, y, Destroy(id));
            && StepOk(a, y, z, id) && id !in z.roots && z.s.mem == y.s.mem
            && z.s.used == y.s.used - Footprint(a, y.s.mem, y.roots[id])
  {
    hide Foot, Tree, Walk, Release;
    var z := Exec(a, y, Destroy(id));
    OwnIsUsed(a, y, id);
    ReleaseFacts(a, y.s.mem, y.s.used, y.roots[id], Levels(a));
    KeepOthers(a, y, z, id, {});
    InvAgain(a, y, z, id);
  }

  /** Frames taken, given back or written outside the page tables: every space is kept, the kernel's too. */
  ghost predicate OtherOk(a: Arch, y: Sys, z: Sys) {
    StepOk(a, y, z, 0) && z.roots == y.roots && SpaceKept(a, y.s.mem, z.s.mem, y.roots[0])
  }

  lemma StoppedKernel(a: Arch, y: Sys)
    requires Inv(a, y)
    ensures StepOk(a, y, y, 0) && SpaceKept(a, y.s.mem, y.s.mem, y.roots[0])
  {
    KeepOthers(a, y, y, 0, {});
    KeepSpace(a, y.s.mem, y.s.mem, y.roots[0]);
  }

  lemma SaneIn(a: Arch, y: Sys)
    requires Inv(a, y)
    ensures Sane(y.s)
  {
  }

  lemma StepTake(a: Arch, y: Sys, count: nat)
    requires Inv(a, y)
    ensures OtherOk(a, y, Exec(a, y, Take(count)))
  {
    hide Inv, StepOk, SpaceKept, FirstRun, Span;
    SaneIn(a, y);
    TakeFacts(y.s, count);
    match FirstRun(y.s.used, |y.s.mem|, count, 0)
    case None => StoppedKernel(a, y);
    case Some(start) => StepTaken(a, y, Span(start, count));
  }

  lemma StepTaken(a: Arch, y: Sys, taken: set<nat>)
    requires Inv(a, y) && taken !! y.s.used && Sane(y.s.(used := y.s.used + taken))
    ensures OtherOk(a, y, y.(s := y.s.(used := y.s.used + taken), held := y.held + taken))
  {
    hide Foot, Tree, Walk;
    var z := y.(s := y.s.(used := y.s.used + taken), held := y.held + taken);
    OwnIsUsed(a, y, 0);
    KeepOthers(a, y, z, 0, {});
    KeepSpace(a, y.s.mem, z.s.mem, y.roots[0]);
    InvAgain(a, y, z, 0);
  }

  lemma StepGive(a: Arch, y: Sys, frame: nat)
    requires Inv(a, y) && Enabled(a, y, Give(frame))
    ensures OtherOk(a, y, Exec(a, y, Give(frame)))
  {
    hide Foot, Tree, Walk;
    var z := Exec(a, y, Give(frame));
    OwnIsUsed(a, y, 0);
    KeepOthers(a, y, z, 0, {});
    KeepSpace(a, y.s.mem, z.s.mem, y.roots[0]);
    InvAgain(a, y, z, 0);
  }

  lemma StepStore(a: Arch, y: Sys, frame: nat, i: nat, w: Word)
    requires Inv(a, y) && Enabled(a, y, Store(frame, i, w))
    ensures OtherOk(a, y, Exec(a, y, Store(frame, i, w)))
  {
    hide Foot, Tree, Walk;
    var z := Exec(a, y, Store(frame, i, w));
    OwnIsUsed(a, y, 0);
    KeepOthers(a, y, z, 0, {frame});
    KeepSpace(a, y.s.mem, z.s.mem, y.roots[0]);
    InvAgain(a, y, z, 0);
  }

  lemma TakeFacts(s: Phys, count: nat)
    requires Sane(s)
    ensures match FirstRun(s.used, |s.mem|, count, 0)
            case None => true
            case Some(start) => Span(start, count) !! s.used && Sane(s.(used := s.used + Span(start, count)))
  {
    if count > 0 {
      FirstRunIsLowest(s.used, |s.mem|, count, 0);
    }
  }

  /** The space an operation names; operations on no space count as the kernel's. */
  function Named(op: Op): nat {
    match op
    case Create(id) => id
    case Destroy(id) => id
    case Map(id, _, _, _) => id
    case Unmap(id, _) => id
    case _ => 0
  }

  /** Every operation keeps the partition of used frames, every tree and the rights invariant, and
      keeps every space it does not name. */
  lemma StepKeeps(a: Arch, y: Sys, op: Op)
    requires Inv(a, y) && Enabled(a, y, op)
    ensures StepOk(a, y, Exec(a, y, op), Named(op))
    ensures !(op.Create? || op.Map? || op.Unmap?) && 0 in y.roots && Named(op) == 0 ==>
      0 in Exec(a, y, op).roots && Exec(a, y, op).roots[0] == y.roots[0]
      && SpaceKept(a, y.s.mem, Exec(a, y, op).s.mem, y.roots[0])
  {
    hide Inv, Foot, Tree, Walk, MapPage, UnmapPage, Clone, Release, SpaceKept, StepOk;
    match op
    case Create(id) => StepCreate(a, y, id);
    case Destroy(id) => if id == 0 { StoppedKernel(a, y); } else { StepDestroy(a, y, id); }
    case Map(id, v, phys, flags) => StepMap(a, y, id, v, phys, flags);
    case Unmap(id, v) => StepUnmap(a, y, id, v);
    case Take(count) => StepTake(a, y, count);
    case Give(frame) => StepGive(a, y, frame);
    case Store(frame, i, w) => StepStore(a, y, frame, i, w);
  }

  lemma RepresentsAgain(a: Arch, y: Sys, z: Sys, p: map<nat, PageMap>, q: map<nat, PageMap>, k: nat)
    requires Represents(a, y, p) && OthersKept(a, y, z, k)
    requires q.Keys == z.roots.Keys && forall id :: id != k && id in p ==> q[id] == p[id]
    requires k in z.roots ==> forall v :: Look(a, z.s.mem, z.roots[k], v) == q[k](v)
    ensures Represents(a, z, q)
  {
    hide Look, Footprint, SpaceOk;
    forall id, v | id in z.roots
      ensures Look(a, z.s.mem, z.roots[id], v) == q[id](v)
    {
      if id != k {
        assert SpaceKept(a, y.s.mem, z.s.mem, y.roots[id]);
      }
    }
  }

  /** Each operation acts on the represented page maps as AbstractExec says. */
  lemma StepRefines(a: Arch, y: Sys, p: map<nat, PageMap>, op: Op)
    requires Inv(a, y) && Enabled(a, y, op) && Represents(a, y, p)
    ensures Represents(a, Exec(a, y, op), AbstractExec(a, p, op))
  {
    hide Inv, Foot, Tree, Walk, MapPage, UnmapPage, Clone, Release, SpaceOk, Footprint, Look, SamePage, Mapped, Unmapped;
    var z := Exec(a, y, op);
    var q := AbstractExec(a, p, op);
    StepKeeps(a, y, op);
    match op {
      case Create(id) => StepCreate(a, y, id);
      case Destroy(id) => if id != 0 { StepDestroy(a, y, id); }
      case Map(id, v, phys, flags) => StepMap(a, y, id, v, phys, flags);
      case Unmap(id, v) => StepUnmap(a, y, id, v);
      case _ =>
    }
    RepresentsAgain(a, y, z, p, q, Named(op));
  }
}

/** The whole way from boot: the identity map extended, then any run; and the whole kernel's frames. */
module BootRuns {
  import opened Pmm
  import opened PageTable
  import opened PageAddress
  import opened PageOps
  import PageClone
  import opened PageRuns
  import opened PageTheorems
  import opened PageIdentity
  import opened PageBoot
  import opened Paging
  import Kernel
  import Loader

  // ---------------------------------------------------------------- enough frames for the identity map

  lemma {:induction false} FewMissingBig(m: Memory, f: nat, d: Depth, v: U64Value)
    requires d > 1
    ensures MissingBig(m, f, d, v) <= d - 2
    decreases d
  {
    var w := Get(m, f, Index(v, d));
    if d > 2 && IsTable(X86, w) {
      FewMissingBig(m, FrameOf(X86, w), d - 1, v);
    }
  }

  function Units(addr: nat, end: nat): nat {
    if addr >= end then 0 else (end - addr) / BIG
  }

  lemma UnitStep(addr: nat, end: nat)
    requires addr % BIG == 0 && end % BIG == 0 && addr < end
    ensures Units(addr, end) == 1 + Units(addr + BIG, end) && addr + BIG <= end
  {
    var p, q := addr / BIG, end / BIG;
    assert addr == p * BIG && end == q * BIG;
    assert (end - addr) / BIG == q - p;
  }

  /** Two frames for every 2MB are enough, where no leaf above the page directories stands in the way. */
  lemma {:induction false} IdentityEnough(s: Phys, root: nat, addr: nat, end: nat)
    requires addr % BIG == 0 && end % BIG == 0 && addr <= end <= 0x1_0000_0000_0000
    requires Sane(s) && Tree(X86, s.mem, root, 4) && Foot(X86, s.mem, root, 4) <= s.used
    requires forall u: U64Value :: addr <= u < end ==> !HighLeaf(Walk(X86, s.mem, root, 4, u))
    requires 2 * Units(addr, end) <= Avail(s)
    ensures PageIdentity.RangeEnabled(s, root, addr, end)
    decreases end - addr
  {
    hide Foot, Tree, Walk, MissingBig, IdentityPage, Avail, Units, PdAbsent, SameBig, GrantsWrite, GrantsUser, BigEntry;
    if addr < end {
      UnitStep(addr, end);
      FewMissingBig(s.mem, root, 4, addr);
      IdentityGrows(s, root, 4, addr);
      var s1 := IdentityPage(s, root, 4, addr);
      forall u: U64Value | addr + BIG <= u < end
        ensures !HighLeaf(Walk(X86, s1.mem, root, 4, u))
      {
        IdentityWalks(s, root, 4, addr, u);
      }
      IdentityEnough(s1, root, addr + BIG, end);
    }
  }

  // ---------------------------------------------------------------- boot, then paging_identity_map, then any run

  /** paging_identity_map on the freshly booted kernel. */
  function Extended(y: Sys, phys: U64Value, size: U64Value): Sys
    requires 0 in y.roots
  {
    y.(s := IdentityRange(y.s, y.roots[0], BigStart(phys), BigEnd(phys, size)))
  }

  ghost predicate CanExtend(y: Sys, phys: U64Value, size: U64Value) {
    Booted(X86, y) && phys + size + BIG <= 0x1_0000_0000_0000
    && 2 * Units(BigStart(phys), BigEnd(phys, size)) <= Avail(y.s)
  }

  lemma BootedIdentity(y: Sys, v: U64Value)
    requires Booted(X86, y) && v < 0x1_0000_0000_0000
    ensures 0 in y.roots && CanIdentify(y.s.mem, y.roots[0], v)
    ensures var h := Walk(X86, y.s.mem, y.roots[0], 4, v);
            (v < 0x4000_0000 ==> IdentityHit(y.s.mem, y.roots[0], v) && !PdAbsent(y.s.mem, y.roots[0], 4, v))
            && (h.Miss? || h.level == 2)
  {
    hide BootX86, Walk, HardwareTranslate, PdAbsent, GrantsWrite, GrantsUser, Bit2, Footprint;
    var pml4, pdp, pd :| FirstState(y, pml4, {pml4, pdp, pd}) && BootX86(y.s.mem, pml4, pdp, pd);
    BootX86Walk(y.s.mem, pml4, pdp, pd, v);
    if v < 0x4000_0000 {
      BigLeafIdentity(v / 0x20_0000, v);
      LeafIsPresent(y.s.mem, pml4, 4, v);
    }
  }

  lemma {:induction false} LeafIsPresent(m: Memory, f: nat, d: Depth, v: U64Value)
    requires d > 1 && Walk(X86, m, f, d, v).Leaf?
    ensures !PdAbsent(m, f, d, v)
    decreases d
  {
    var w := Get(m, f, Index(v, d));
    if d > 2 && IsTable(X86, w) {
      LeafBelowIs(m, f, d, v);
      LeafIsPresent(m, FrameOf(X86, w), d - 1, v);
    }
  }

  lemma LeafBelowIs(m: Memory, f: nat, d: Depth, v: U64Value)
    requires d > 1 && IsTable(X86, Get(m, f, Index(v, d)))
    ensures Walk(X86, m, FrameOf(X86, Get(m, f, Index(v, d))), d - 1, v) == Walk(X86, m, f, d, v)
  {
  }

  /** The boot map and the range asked for are identity-mapped, by big leaves, and the invariant holds. */
  lemma ExtendedFacts(y: Sys, phys: U64Value, size: U64Value, v: U64Value)
    requires CanExtend(y, phys, size) && (v < 0x4000_0000 || phys <= v < phys + size)
    ensures 0 in y.roots && var y1 := Extended(y, phys, size);
            && Inv(X86, y1) && y1.roots == y.roots && y1.roots.Keys == {0}
            && IdentityHit(y1.s.mem, y1.roots[0], v) && Stops(Seen(X86, y1, 0, v))
  {
    hide Booted, Inv, Foot, Tree, Walk, IdentityRange, PdAbsent, CanIdentify, GrantsWrite, HardwareTranslate, BigStart, BigEnd,
      Units, Avail, PageIdentity.RangeEnabled;
    BootedInv(X86, y);
    Kernel.SpaceReadyIn(X86, y, 0);
    BigBounds(phys, size);
    var root := y.roots[0];
    var lo, hi := BigStart(phys), BigEnd(phys, size);
    forall u: U64Value | lo <= u < hi
      ensures !HighLeaf(Walk(X86, y.s.mem, root, 4, u))
    {
      BootedIdentity(y, u);
    }
    IdentityEnough(y.s, root, lo, hi);
    IdentityKeepsInv(y, lo, hi);
    IdentityRangeFacts(y.s, root, lo, hi);
    var t := IdentityRange(y.s, root, lo, hi);
    assert RangePromise(y.s.mem, t.mem, root, lo, hi, v);
    BootedIdentity(y, v);
  }

  /** From boot through paging_identity_map, with two frames for each 2MB of it, and then any run: every space
      alive maps the first gigabyte and [phys, phys+size) to themselves, writable, as framebuffer code and the
      kernel's use of physical addresses as pointers require. */
  lemma ExtendedIdentity(y: Sys, phys: U64Value, size: U64Value, ops: seq<Op>, id: nat, v: U64Value)
    requires CanExtend(y, phys, size) && (v < 0x4000_0000 || phys <= v < phys + size)
    requires 0 in y.roots && RunEnabled(X86, Extended(y, phys, size), ops)
    requires id in Run(X86, Extended(y, phys, size), ops).roots
    ensures var z := Run(X86, Extended(y, phys, size), ops);
            IdentityHit(z.s.mem, z.roots[id], v)
  {
    hide Inv, Walk, Exec, Enabled, HardwareTranslate, GrantsWrite, CanExtend, Extended;
    ExtendedFacts(y, phys, size, v);
    var y1 := Extended(y, phys, size);
    var z := Run(X86, y1, ops);
    BlocksSurvive(X86, y1, ops, v, Seen(X86, y1, 0, v));
    RunKeepsInv(X86, y1, ops);
    WritableWalk(z, id, v);
  }

  lemma WritableWalk(z: Sys, id: nat, v: U64Value)
    requires Inv(X86, z) && id in z.roots
    ensures GrantsWrite(X86, z.s.mem, z.roots[id], 4, v)
  {
    assert SpaceOk(X86, z.s.mem, z.roots[id]);
    assert RightsOk(X86, z.s.mem, z.roots[id], v);
  }

  // ---------------------------------------------------------------- the whole kernel from boot

  /** From boot on, in every state of the whole kernel, whatever was created, mapped, allocated and freed, a frame
      is in use exactly when it has an owner, and it has one only. */
  lemma OneOwnerFromBoot(a: Arch, y: Sys, ops: seq<Kernel.KernelOp>, z: Kernel.KState, f: nat)
    requires Booted(a, y) && Kernel.KernelRun(a, Kernel.KState(y, []), ops, z)
    ensures f in z.y.s.used <==> exists o :: Kernel.Owns(a, z, o, f)
    ensures forall o, p :: Kernel.Owns(a, z, o, f) && Kernel.Owns(a, z, p, f) ==> o == p
  {
    hide Booted, Inv, Kernel.KernelOk, Kernel.Owns, Kernel.KernelRun;
    BootedInv(a, y);
    Kernel.StartsOk(a, y);
    Kernel.RunOneOwner(a, Kernel.KState(y, []), ops, z, f);
  }

  // ---------------------------------------------------------------- vmm_selftest

  /** The address vmm_selftest uses: past the boot map. */
  function TestVa(a: Arch): U64Value {
    if a == X86 then 0x5000_0000 else 0x8000_0000
  }

  /** vmm_selftest up to its checks: a new space, a frame, and the frame mapped in the new space alone. */
  function SelftestOps(a: Arch, id: nat, frame: nat): seq<Op>
    requires frame < 0x10_0000_0000
  {
    [Create(id), Take(1), Map(id, TestVa(a), frame * 4096, 3)]
  }

  lemma TakeOneFrame(y: Sys, a: Arch)
    requires Inv(a, y) && Avail(y.s) >= 1
    ensures var g := AllocFrame(y.s).1;
            var z := Exec(a, y, Take(1));
            && Inv(a, z) && 0 < g < |y.s.mem| && g !in y.s.used && z.s.mem == y.s.mem && z.roots == y.roots
            && z.s.used == y.s.used + {g} && z.held == y.held + {g} && Avail(z.s) == Avail(y.s) - 1
  {
    hide SpaceOk, Footprint, FirstRun, Free, SpaceKept;
    AllocFacts(y.s);
    StepTake(a, y, 1);
    var g := AllocFrame(y.s).1;
    assert Span(g, 1) == {g};
  }

  /** The selftest passes on a booted kernel with frames enough: the new space translates the test address to the
      frame, the kernel's space still does not translate it, and destroying the space and giving the frame back
      leaves the allocator as it was. */
  lemma SelftestPasses(a: Arch, y: Sys, id: nat)
    requires Booted(a, y) && id != 0 && Avail(y.s) >= 7
    ensures 0 in y.roots && Enabled(a, y, Create(id))
    ensures var g := AllocFrame(Exec(a, y, Create(id)).s).1;
            var z := Run(a, y, SelftestOps(a, id, g));
            var w := Exec(a, Exec(a, z, Destroy(id)), Give(g));
            && Given(a, y, 0, TestVa(a)) == 0
            && Given(a, z, id, TestVa(a)) == g * 4096 && Given(a, z, 0, TestVa(a)) == 0
            && w.roots == y.roots && w.s.used == y.s.used && w.held == y.held
  {
    hide Booted, Inv, Exec, Enabled, Look, Avail, Missing, Guest, OthersKept, LeafEntry, FrameOf, Tables, PhysFrame;
    var va := TestVa(a);
    BootedInv(a, y);
    BootedWalk(a, y, va);
    GuestArrivesAtBoot(a, y, id);
    var y1 := Exec(a, y, Create(id));
    TakeOneFrame(y1, a);
    var g := AllocFrame(y1.s).1;
    var y2 := Exec(a, y1, Take(1));
    GuestTakes(a, y, y1, id);
    MapsTheFrame(a, y, y2, id, g);
    var y3 := Exec(a, y2, Map(id, va, g * 4096, 3));
    ThreeSteps(a, y, Create(id), Take(1), Map(id, va, g * 4096, 3));
    GuestLeaves(a, y, y3, id);
    GiveBack(a, y, Exec(a, y3, Destroy(id)), g);
  }

  lemma ThreeSteps(a: Arch, y: Sys, p: Op, q: Op, r: Op)
    ensures Run(a, y, [p, q, r]) == Exec(a, Exec(a, Exec(a, y, p), q), r)
  {
    hide Exec;
    assert [p, q, r][1..] == [q, r] && [q, r][1..] == [r] && [r][1..] == [];
    var y1 := Exec(a, y, p);
    assert Run(a, y1, [q, r]) == Run(a, Exec(a, y1, q), [r]);
  }

  lemma GuestArrivesAtBoot(a: Arch, y: Sys, id: nat)
    requires Booted(a, y) && id != 0 && Avail(y.s) >= 7
    ensures 0 in y.roots && Enabled(a, y, Create(id)) && Guest(a, y, Exec(a, y, Create(id)), id)
    ensures var y1 := Exec(a, y, Create(id));
            && Inv(a, y1) && 0 in y1.roots && y1.held == y.held && y.s.used <= y1.s.used && Avail(y1.s) >= 4 && Seen(a, y1, id, TestVa(a)) == Miss
  {
    hide Booted, Inv, Look, Tables, Avail, Clone, SpaceKept;
    BootedInv(a, y);
    BootedWalk(a, y, TestVa(a));
    GuestArrives(a, y, id);
    StepCreate(a, y, id);
    PageClone.CloneTakes(a, y.s, y.roots[0], Levels(a));
  }

  lemma GuestTakes(a: Arch, y: Sys, y1: Sys, id: nat)
    requires Guest(a, y, y1, id) && 0 in y1.roots
    ensures Guest(a, y, Exec(a, y1, Take(1)), id)
  {
    hide Guest, Exec;
    GuestStep(a, y, y1, id, Take(1));
  }

  lemma MapsTheFrame(a: Arch, y: Sys, y2: Sys, id: nat, g: nat)
    requires Guest(a, y, y2, id) && 0 in y.roots && id != 0 && Avail(y2.s) >= 3 && 0 < g < 0x10_0000_0000
    requires Seen(a, y2, id, TestVa(a)) == Miss && Seen(a, y, 0, TestVa(a)) == Miss
    ensures var y3 := Exec(a, y2, Map(id, TestVa(a), g * 4096, 3));
            && Guest(a, y, y3, id) && y3.held == y2.held
            && Given(a, y3, id, TestVa(a)) == g * 4096 && Given(a, y3, 0, TestVa(a)) == 0
  {
    hide Inv, Look, Avail, Missing, MapPage, SpaceOk, Footprint, LeafEntry, FrameOf;
    var va := TestVa(a);
    FewMissing(a, y2.s.mem, y2.roots[id], va);
    assert Enabled(a, y2, Map(id, va, g * 4096, 3)) && 0 in y2.roots;
    GuestStep(a, y, y2, id, Map(id, va, g * 4096, 3));
    StepMap(a, y2, id, va, g * 4096, 3);
    SamePageIff(va, va, Levels(a));
    LeafEntryFacts(a, g * 4096, 3);
    var y3 := Exec(a, y2, Map(id, va, g * 4096, 3));
    assert SpaceKept(a, y.s.mem, y3.s.mem, y.roots[0]);
  }

  lemma FewMissing(a: Arch, m: Memory, root: nat, v: U64Value)
    ensures Missing(a, m, root, Levels(a), v) < Levels(a)
  {
    Loader.FewMissing(a, m, root, Levels(a), v);
  }

  lemma GiveBack(a: Arch, y: Sys, w: Sys, g: nat)
    requires w.roots == y.roots && w.held == y.held + {g} && g !in y.s.used
    requires w.s.used == y.s.used - y.held + w.held && Inv(a, y)
    ensures var z := Exec(a, w, Give(g));
            z.roots == y.roots && z.s.used == y.s.used && z.held == y.held
  {
    hide SpaceOk, Footprint, Sane;
  }
}

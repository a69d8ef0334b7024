/** The tables the boot code leaves behind are a reachable starting state, and the identity map in them
    outlives every run (arch/x86_64/boot/boot.asm, arch/aarch64/mm/mmu_boot.c). */
module PageBoot {
  import opened Pmm
  import opened PageTable
  import opened PageAddress
  import opened PageOps
  import opened PageClone
  import opened PageRuns
  import opened PageTheorems
  import opened PageIdentity

  /** Only space 0 exists; its tables and the held frames are the used frames. */
  ghost predicate FirstState(y: Sys, root: nat, tables: set<nat>) {
    && Sane(y.s) && y.roots == map[0 := root] && 0 in y.held
    && y.s.used == y.held + tables && y.held !! tables
  }

  /** boot.asm: PML4[0] and PDP[0] lead to one page directory of 512 identity 2MB leaves. */
  ghost predicate BootX86(m: Memory, pml4: nat, pdp: nat, pd: nat) {
    && 0 < pml4 < |m| && 0 < pdp < |m| && 0 < pd < |m| && pml4 != pdp && pdp != pd && pml4 != pd
    && Get(m, pml4, 0) == Word(pdp, 3, 0) && (forall i: nat :: 0 < i ==> Get(m, pml4, i) == NIL)
    && Get(m, pdp, 0) == Word(pd, 3, 0) && (forall i: nat :: 0 < i ==> Get(m, pdp, i) == NIL)
    && forall i: nat :: i < 512 ==> Get(m, pd, i) == Word(512 * i, 0x83, 0)
  }

  /** mmu_boot.c: two 1GB block leaves, device memory and RAM. */
  ghost predicate BootA64(m: Memory, l1: nat) {
    && 0 < l1 < |m|
    && Get(m, l1, 0) == Word(0, 0x701, 6) && Get(m, l1, 1) == Word(0x4_0000, 0x705, 0)
    && forall i: nat :: 1 < i ==> Get(m, l1, i) == NIL
  }

  /** A table without child tables. */
  lemma LeavesOnly(a: Arch, m: Memory, f: nat, d: Depth)
    requires 0 < f < |m| && forall i: nat :: !HasKid(a, m, f, d, i)
    requires forall i: nat :: Present(Get(m, f, i)) || !Blocked(a, Get(m, f, i))
    ensures Tree(a, m, f, d) && Foot(a, m, f, d) == {f}
  {
    assert forall i: nat :: KidFoot(a, m, f, d, i) == {};
  }

  /** A table whose only child table hangs from entry 0. */
  lemma OneKid(a: Arch, m: Memory, f: nat, d: Depth, c: nat)
    requires d > 1 && 0 < f < |m| && HasKid(a, m, f, d, 0) && Kid(a, m, f, 0) == c
    requires forall i: nat :: 0 < i ==> Get(m, f, i) == NIL
    requires Tree(a, m, c, d - 1) && f !in Foot(a, m, c, d - 1)
    ensures Tree(a, m, f, d) && Foot(a, m, f, d) == {f} + Foot(a, m, c, d - 1)
  {
    hide IsTable, Present, Blocked, FrameOf;
    NilFacts(a);
    TableNotBlocked(a, Get(m, f, 0));
    forall i: nat
      ensures i > 0 ==> !HasKid(a, m, f, d, i)
      ensures KidFoot(a, m, f, d, i) == if i == 0 then Foot(a, m, c, d - 1) else {}
    {
    }
    assert 0 < 512;
  }

  lemma FirstInv(a: Arch, y: Sys, root: nat, tables: set<nat>)
    requires FirstState(y, root, tables) && SpaceOk(a, y.s.mem, root) && Footprint(a, y.s.mem, root) == tables
    ensures Inv(a, y)
  {
    hide Footprint, SpaceOk;
    assert y.roots[0] == root;
    assert forall x :: x in tables ==> 0 in y.roots && x in Footprint(a, y.s.mem, y.roots[0]);
    assert Owned(a, y) == tables;
  }

  lemma BootX86Tree(m: Memory, pml4: nat, pdp: nat, pd: nat)
    requires BootX86(m, pml4, pdp, pd)
    ensures Tree(X86, m, pml4, 4) && Foot(X86, m, pml4, 4) == {pml4, pdp, pd}
  {
    hide Tree, Foot, KidFoot;
    LeavesOnly(X86, m, pd, 2);
    OneKid(X86, m, pdp, 3, pd);
    OneKid(X86, m, pml4, 4, pdp);
  }

  lemma BootX86Walk(m: Memory, pml4: nat, pdp: nat, pd: nat, v: U64Value)
    requires BootX86(m, pml4, pdp, pd)
    ensures RightsOk(X86, m, pml4, v)
    ensures v < 0x4000_0000 ==> Look(X86, m, pml4, v) == Leaf(2, Word(512 * (v / 0x20_0000), 0x83, 0))
    ensures 0x4000_0000 <= v < 0x1_0000_0000_0000 ==>
              Look(X86, m, pml4, v) == Miss && PdAbsent(m, pml4, 4, v) && Missing(X86, m, pml4, 4, v) > 0
  {
    NilFacts(X86);
    if v < 0x4000_0000 {
      assert Index(v, 4) == 0 && Index(v, 3) == 0 && Index(v, 2) == v / 0x20_0000;
    } else if v < 0x1_0000_0000_0000 {
      assert Index(v, 4) == v / 0x80_0000_0000;
      assert Index(v, 4) > 0 || Index(v, 3) == v / 0x4000_0000 > 0;
    }
  }

  lemma BootA64Facts(m: Memory, l1: nat, v: U64Value)
    requires BootA64(m, l1)
    ensures Tree(A64, m, l1, 3) && Foot(A64, m, l1, 3) == {l1} && RightsOk(A64, m, l1, v)
    ensures v < 0x8000_0000 ==>
      Look(A64, m, l1, v) == Leaf(3, if v < 0x4000_0000 then Word(0, 0x701, 6) else Word(0x4_0000, 0x705, 0))
    ensures 0x8000_0000 <= v < 0x80_0000_0000 ==> Look(A64, m, l1, v) == Miss && Missing(A64, m, l1, 3, v) > 0
  {
    NilFacts(A64);
    forall i: nat
      ensures !HasKid(A64, m, l1, 3, i) && (Present(Get(m, l1, i)) || !Blocked(A64, Get(m, l1, i)))
    {
      assert i == 0 || i == 1 || Get(m, l1, i) == NIL;
    }
    LeavesOnly(A64, m, l1, 3);
    if v < 0x80_0000_0000 {
      assert Index(v, 3) == v / 0x4000_0000;
    }
  }

  lemma BigLeafIdentity(k: nat, v: U64Value)
    requires k < 512 && v / 0x20_0000 == k
    ensures HardwareTranslate(X86, Leaf(2, Word(512 * k, 0x83, 0)), v) == Some(v as nat)
  {
    assert 512 * k * 4096 / EntrySpan(2) == k;
    assert v == k * 0x20_0000 + v % 0x20_0000;
  }

  lemma GigLeafIdentity(w: Word, v: U64Value)
    requires v < 0x8000_0000 && w.frame == v / 0x4000_0000 * 0x4_0000
    ensures HardwareTranslate(A64, Leaf(3, w), v) == Some(v as nat)
  {
    assert v / 0x4000_0000 == 0 || v / 0x4000_0000 == 1;
  }

  /** The boot tables satisfy the invariant every theorem about runs starts from. */
  lemma BootX86Inv(y: Sys, pml4: nat, pdp: nat, pd: nat)
    requires FirstState(y, pml4, {pml4, pdp, pd}) && BootX86(y.s.mem, pml4, pdp, pd)
    ensures Inv(X86, y)
  {
    hide BootX86, Tree, Foot;
    BootX86Tree(y.s.mem, pml4, pdp, pd);
    forall v
      ensures RightsOk(X86, y.s.mem, pml4, v)
    {
      BootX86Walk(y.s.mem, pml4, pdp, pd, v);
    }
    FirstInv(X86, y, pml4, {pml4, pdp, pd});
  }

  lemma BootA64Inv(y: Sys, l1: nat)
    requires FirstState(y, l1, {l1}) && BootA64(y.s.mem, l1)
    ensures Inv(A64, y)
  {
    hide BootA64, Tree, Foot;
    BootA64Facts(y.s.mem, l1, 0);
    forall v
      ensures RightsOk(A64, y.s.mem, l1, v)
    {
      BootA64Facts(y.s.mem, l1, v);
    }
    FirstInv(A64, y, l1, {l1});
  }

  /** From boot on, whatever is created, mapped, unmapped and destroyed, every space alive still maps the
      first gigabyte to itself: kernel code and physical-address pointers stay valid in all of them. */
  lemma BootIdentityX86(y: Sys, pml4: nat, pdp: nat, pd: nat, ops: seq<Op>, id: nat, v: U64Value)
    requires FirstState(y, pml4, {pml4, pdp, pd}) && BootX86(y.s.mem, pml4, pdp, pd)
    requires RunEnabled(X86, y, ops) && id in Run(X86, y, ops).roots && v < 0x4000_0000
    ensures var z := Run(X86, y, ops);
            HardwareTranslate(X86, Look(X86, z.s.mem, z.roots[id], v), v) == Some(v as nat)
  {
    hide BootX86, Walk, Look, HardwareTranslate, Inv, Exec, Enabled;
    BootX86Inv(y, pml4, pdp, pd);
    BootX86Walk(y.s.mem, pml4, pdp, pd, v);
    BlocksSurvive(X86, y, ops, v, Leaf(2, Word(512 * (v / 0x20_0000), 0x83, 0)));
    BigLeafIdentity(v / 0x20_0000, v);
  }

  lemma BootIdentityA64(y: Sys, l1: nat, ops: seq<Op>, id: nat, v: U64Value)
    requires FirstState(y, l1, {l1}) && BootA64(y.s.mem, l1)
    requires RunEnabled(A64, y, ops) && id in Run(A64, y, ops).roots && v < 0x8000_0000
    ensures var z := Run(A64, y, ops);
            HardwareTranslate(A64, Look(A64, z.s.mem, z.roots[id], v), v) == Some(v as nat)
  {
    hide BootA64, Walk, Look, HardwareTranslate, Inv, Exec, Enabled;
    var w := if v < 0x4000_0000 then Word(0, 0x701, 6) else Word(0x4_0000, 0x705, 0);
    BootA64Inv(y, l1);
    BootA64Facts(y.s.mem, l1, v);
    BlocksSurvive(A64, y, ops, v, Leaf(3, w));
    GigLeafIdentity(w, v);
  }

  // ---------------------------------------------------------------- both architectures alike

  /** The kernel has just booted on architecture a. */
  ghost predicate Booted(a: Arch, y: Sys) {
    match a
    case X86 => exists pml4, pdp, pd :: FirstState(y, pml4, {pml4, pdp, pd}) && BootX86(y.s.mem, pml4, pdp, pd)
    case A64 => exists l1 :: FirstState(y, l1, {l1}) && BootA64(y.s.mem, l1)
  }

  /** Where the boot blocks end: they map 1GB on x86_64, 2GB on AArch64. */
  function BlocksEnd(a: Arch): U64Value {
    if a == X86 then 0x4000_0000 else 0x8000_0000
  }

  lemma BootedInv(a: Arch, y: Sys)
    requires Booted(a, y)
    ensures Inv(a, y) && y.roots.Keys == {0} && 0 in y.roots && Tables(a, y.s.mem, y.roots[0], Levels(a)) <= 3
  {
    hide BootX86, BootA64, Inv, Foot, Tree, Tables;
    match a {
      case X86 =>
        var pml4, pdp, pd :| FirstState(y, pml4, {pml4, pdp, pd}) && BootX86(y.s.mem, pml4, pdp, pd);
        BootX86Inv(y, pml4, pdp, pd);
        BootX86Tree(y.s.mem, pml4, pdp, pd);
        TablesIsSize(X86, y.s.mem, pml4, 4);
        SmallSet(pml4, pdp, pd);
      case A64 =>
        var l1 :| FirstState(y, l1, {l1}) && BootA64(y.s.mem, l1);
        BootA64Inv(y, l1);
        BootA64Facts(y.s.mem, l1, 0);
        TablesIsSize(A64, y.s.mem, l1, 3);
        SmallSet(l1, l1, l1);
        assert {l1} == {l1, l1, l1};
    }
  }

  lemma SmallSet(x: nat, y: nat, z: nat)
    ensures |{x, y, z}| <= 3
  {
    if x != y && y != z && x != z {
      assert |{x, y, z}| == 3;
    } else {
      assert {x, y, z} == {x, y} || {x, y, z} == {x, z};
      assert |{x, y}| <= 2 && |{x, z}| <= 2;
    }
  }

  /** Below BlocksEnd the kernel's space is blocks that map addresses to themselves; above it is empty. */
  lemma BootedWalk(a: Arch, y: Sys, v: U64Value)
    requires Booted(a, y)
    ensures v < BlocksEnd(a) ==>
              Stops(Seen(a, y, 0, v)) && HardwareTranslate(a, Seen(a, y, 0, v), v) == Some(v as nat)
    ensures BlocksEnd(a) <= v < 4096 * Pages(Levels(a)) ==>
              Seen(a, y, 0, v) == Miss && 0 in y.roots && Missing(a, y.s.mem, y.roots[0], Levels(a), v) > 0
  {
    hide BootX86, BootA64, Look, HardwareTranslate, Inv, Footprint;
    match a {
      case X86 =>
        var pml4, pdp, pd :| FirstState(y, pml4, {pml4, pdp, pd}) && BootX86(y.s.mem, pml4, pdp, pd);
        BootX86Walk(y.s.mem, pml4, pdp, pd, v);
        if v < BlocksEnd(a) { BigLeafIdentity(v / 0x20_0000, v); }
      case A64 =>
        var l1 :| FirstState(y, l1, {l1}) && BootA64(y.s.mem, l1);
        BootedWalkA64(y.s.mem, l1, v);
    }
  }

  lemma BootedWalkA64(m: Memory, l1: nat, v: U64Value)
    requires BootA64(m, l1)
    ensures v < 0x8000_0000 ==> Stops(Look(A64, m, l1, v)) && HardwareTranslate(A64, Look(A64, m, l1, v), v) == Some(v as nat)
    ensures 0x8000_0000 <= v < 0x80_0000_0000 ==> Look(A64, m, l1, v) == Miss && Missing(A64, m, l1, 3, v) > 0
  {
    hide BootA64, Look, HardwareTranslate;
    BootA64Facts(m, l1, v);
    if v < 0x8000_0000 {
      GigLeafIdentity(if v < 0x4000_0000 then Word(0, 0x701, 6) else Word(0x4_0000, 0x705, 0), v);
    }
  }

  /** From boot on, in every space alive after any run, the hardware maps a boot address to itself, and
      vmm_translate says 0 for it. */
  lemma BlocksTranslateToZero(a: Arch, y: Sys, ops: seq<Op>, id: nat, v: U64Value)
    requires Booted(a, y) && RunEnabled(a, y, ops) && id in Run(a, y, ops).roots && v < BlocksEnd(a)
    ensures var z := Run(a, y, ops);
            HardwareTranslate(a, Seen(a, z, id, v), v) == Some(v as nat) && Given(a, z, id, v) == 0
  {
    hide Booted, Look, HardwareTranslate, Inv, Exec, Enabled;
    BootedInv(a, y);
    BootedWalk(a, y, v);
    BlocksSurvive(a, y, ops, v, Seen(a, y, 0, v));
  }

  // ---------------------------------------------------------------- the identity map extended

  /** paging_identity_map on the kernel's tables keeps the partition, the trees and the rights, and every
      other space; so a run may continue from its result. */
  lemma IdentityKeepsInv(y: Sys, addr: nat, end: nat)
    requires Inv(X86, y) && addr % BIG == 0 && end % BIG == 0 && addr <= end <= 0x1_0000_0000_0000
    requires RangeEnabled(y.s, y.roots[0], addr, end)
    ensures var z := y.(s := IdentityRange(y.s, y.roots[0], addr, end));
            Inv(X86, z) && OthersKept(X86, y, z, 0)
  {
    hide Foot, Tree, Walk, IdentityRange, GrantsUser, GrantsWrite, Bit2, RangeEnabled;
    var root := y.roots[0];
    var z := y.(s := IdentityRange(y.s, root, addr, end));
    OwnIsUsed(X86, y, 0);
    SpaceIsTree(X86, y, 0);
    IdentityRangeFacts(y.s, root, addr, end);
    forall u
      ensures RightsOk(X86, z.s.mem, root, u)
    {
      RightsAfterIdentity(y, z, root, addr, end, u);
    }
    KeepOthers(X86, y, z, 0, Footprint(X86, z.s.mem, root));
    InvAgain(X86, y, z, 0);
  }

  lemma RightsAfterIdentity(y: Sys, z: Sys, root: nat, addr: nat, end: nat, u: U64Value)
    requires SpaceOk(X86, y.s.mem, root) && RangePromise(y.s.mem, z.s.mem, root, addr, end, u)
    ensures RightsOk(X86, z.s.mem, root, u)
  {
    hide Walk, GrantsUser, GrantsWrite, PdAbsent;
    assert RightsOk(X86, y.s.mem, root, u);
    assert forall big: U64Value :: !Bit2(BigEntry(big));
  }
}

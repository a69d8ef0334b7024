/** Where the code does less than its headers say: each case at an input a booted kernel can be given. */
module Shortfalls {
  import Arith
  import opened Pmm
  import opened PageTable
  import opened PageAddress
  import opened PageTree
  import opened PageOps
  import opened PageRuns
  import opened PageClone
  import PageFailure
  import opened PageTheorems
  import opened PageIdentity
  import opened PageBoot
  import opened Paging
  import opened PhysBytes
  import opened Loader
  import opened LoaderImage
  import opened LoaderStray
  import opened LoaderRuns
  import opened Process

  /** A page above the boot blocks and below the stack, where programs are linked. */
  function UserBase(a: Arch): U64Value {
    if a == X86 then 0x8000_0000 else 0xC001_0000
  }

  lemma UserBaseFree(a: Arch, y: Sys, u: U64Value)
    requires Booted(a, y) && UserBase(a) <= u < UserBase(a) + PAGE
    ensures Seen(a, y, 0, u) == Miss
  {
    hide Booted, Look;
    BootedWalk(a, y, u);
  }

  /** A space can be created on a booted kernel with three free frames; its new space sees the kernel's. */
  lemma CreateAtBoot(a: Arch, y: Sys, id: nat, u: U64Value)
    requires Booted(a, y) && id != 0 && Avail(y.s) >= 3
    ensures Inv(a, y) && 0 in y.roots && Enabled(a, y, Create(id))
    ensures var y1 := Exec(a, y, Create(id));
            && Inv(a, y1) && 0 in y1.roots && id in y1.roots && Avail(y1.s) + 3 >= Avail(y.s)
            && Seen(a, y1, id, u) == Seen(a, y, 0, u)
  {
    hide Booted, Look, Inv, Clone, Tables, Avail;
    BootedInv(a, y);
    StepCreate(a, y, id);
    StepMeans(a, y, Exec(a, y, Create(id)), id);
    InvHasKernel(a, Exec(a, y, Create(id)));
  }

  // ---------------------------------------------------------------- mappings are not shared

  /** A page mapped in the kernel's space after a space was created is not mapped in that space. */
  lemma LaterMappingUnseen(a: Arch, y: Sys, id: nat, phys: U64Value, flags: Flags)
    requires Booted(a, y) && id != 0 && Avail(y.s) >= 7 && PresentFlag(flags)
    ensures var z := Exec(a, Exec(a, y, Create(id)), Map(0, UserBase(a), phys, flags));
            Seen(a, z, 0, UserBase(a)) == Leaf(1, LeafEntry(a, phys, flags)) && Seen(a, z, id, UserBase(a)) == Miss
  {
    hide Booted, Look, Inv, Exec, LeafEntry, Avail, Missing, PresentFlag;
    var v := UserBase(a);
    UserBaseFree(a, y, v);
    CreateAtBoot(a, y, id, v);
    var y1 := Exec(a, y, Create(id));
    FewMissing(a, y1.s.mem, y1.roots[0], Levels(a), v);
    MapAfterCreate(a, y, id, v, phys, flags, v);
    SamePageIff(v, v, Levels(a));
  }

  /** A page the kernel had mapped when the space was created stays mapped there after the kernel unmaps it. */
  lemma StalePageStays(a: Arch, y: Sys, id: nat, phys: U64Value, flags: Flags)
    requires Booted(a, y) && id != 0 && Avail(y.s) >= 10 && PresentFlag(flags)
    ensures var y1 := Exec(a, y, Map(0, UserBase(a), phys, flags));
            var z := Exec(a, Exec(a, y1, Create(id)), Unmap(0, UserBase(a)));
            Seen(a, z, 0, UserBase(a)) == Miss && Seen(a, z, id, UserBase(a)) == Leaf(1, LeafEntry(a, phys, flags))
  {
    hide Booted, Look, Inv, LeafEntry, Avail, Missing, PresentFlag, MapPage, Clone, UnmapPage, StepOk, Tables;
    var v := UserBase(a);
    BootedInv(a, y);
    UserBaseFree(a, y, v);
    FewMissing(a, y.s.mem, y.roots[0], Levels(a), v);
    StepMap(a, y, 0, v, phys, flags);
    var y1 := Exec(a, y, Map(0, v, phys, flags));
    StepMeans(a, y, y1, 0);
    InvHasKernel(a, y1);
    MoreTables(a, y, v, phys, flags);
    SamePageIff(v, v, Levels(a));
    UnmapAfterCreate(a, y1, id, v, v);
  }

  /** A map adds at most one table a level, so the kernel's space can still be cloned. */
  lemma MoreTables(a: Arch, y: Sys, v: U64Value, phys: U64Value, flags: Flags)
    requires Booted(a, y) && Avail(y.s) >= 10
    ensures 0 in y.roots && var y1 := Exec(a, y, Map(0, v, phys, flags));
            && y1.roots == y.roots && Tables(a, y1.s.mem, y1.roots[0], Levels(a)) <= Avail(y1.s)
  {
    hide Booted, Inv, Foot, Tree, MapPage, Missing, Tables, Free;
    BootedInv(a, y);
    Ready(a, y, 0);
    var root := y.roots[0];
    FewMissing(a, y.s.mem, root, Levels(a), v);
    MapGrows(a, y.s, root, Levels(a), v, phys, flags);
    var t := MapPage(a, y.s, root, Levels(a), v, phys, flags);
    TablesIsSize(a, y.s.mem, root, Levels(a));
    TablesIsSize(a, t.mem, root, Levels(a));
    NewlyUsed(y.s, t);
  }

  /** What became used is what is no longer available. */
  lemma NewlyUsed(s: Phys, t: Phys)
    requires Sane(s) && Sane(t) && |t.mem| == |s.mem| && s.used <= t.used
    ensures |t.used - s.used| == Avail(s) - Avail(t)
  {
    var taken := t.used - s.used;
    TakeCount(s.used, |s.mem|, taken);
    assert s.used + taken == t.used;
  }

  // ---------------------------------------------------------------- no check for failed allocations

  /** With no frame left, mapping a page breaks the kernel's tables, and a clone of them is no tree. */
  lemma NoFramesBreak(a: Arch, y: Sys, phys: U64Value, flags: Flags)
    requires Booted(a, y) && Avail(y.s) == 0
    ensures 0 in y.roots
    ensures !Tree(a, MapPage(a, y.s, y.roots[0], Levels(a), UserBase(a), phys, flags).mem, y.roots[0], Levels(a))
    ensures var (t, g) := Clone(a, y.s, y.roots[0], Levels(a)); !Tree(a, t.mem, g, Levels(a))
  {
    hide Booted, Inv, Look, Tree, Foot, MapPage, Clone, Avail, Missing, Tables;
    BootedInv(a, y);
    BootedWalk(a, y, UserBase(a));
    ReadyIn(a, y, 0);
    PageFailure.MapKeepsTreeIff(a, y.s, y.roots[0], Levels(a), UserBase(a), phys, flags);
    PageFailure.CloneWholeIff(a, y.s, y.roots[0], Levels(a));
    SomeTable(a, y.s.mem, y.roots[0], Levels(a));
  }

  lemma SomeTable(a: Arch, m: Memory, f: nat, d: Depth)
    ensures Tables(a, m, f, d) > 0
  {
  }

  // ---------------------------------------------------------------- paging_identity_map leaves tables alone

  lemma {:induction false} LeafBelow(m: Memory, f: nat, d: Depth, v: U64Value, u: U64Value)
    requires d > 1 && Walk(X86, m, f, d, v).Leaf? && Walk(X86, m, f, d, v).level == 1 && SameBig(u, v, d)
    ensures !PdAbsent(m, f, d, u) && MissingBig(m, f, d, v) == 0
    decreases d
  {
    var w := Get(m, f, Index(v, d));
    if d > 2 {
      LeafBelow(m, FrameOf(X86, w), d - 1, v, u);
    }
  }

  /** A vmm_map in the kernel's space makes a directory entry a table; paging_identity_map over that unit then
      finds it present and leaves it: the second page of the unit stays unmapped. */
  lemma TableIsLeft(y: Sys, phys: U64Value, flags: Flags)
    requires Booted(X86, y) && Avail(y.s) >= 3 && PresentFlag(flags)
    ensures var y1 := Exec(X86, y, Map(0, 0x8000_0000, phys, flags));
            && 0 in y1.roots && PageIdentity.RangeEnabled(y1.s, y1.roots[0], 0x8000_0000, 0x8020_0000)
            && var n := IdentityRange(y1.s, y1.roots[0], BigStart(0x8000_0000), BigEnd(0x8000_0000, BIG)).mem;
               Walk(X86, n, y1.roots[0], 4, 0x8000_1000) == Miss && !IdentityHit(n, y1.roots[0], 0x8000_1000)
  {
    hide Booted, Inv, LeafEntry, MapPage, Walk, Missing, Avail, PdAbsent, MissingBig, IdentityPage, IdentityRange, SamePage,
      SameBig, Foot, Tree, PresentFlag;
    var v: U64Value := 0x8000_0000;
    var u: U64Value := 0x8000_1000;
    BootedInv(X86, y);
    BootedWalk(X86, y, v);
    BootedWalk(X86, y, u);
    FewMissing(X86, y.s.mem, y.roots[0], 4, v);
    StepMap(X86, y, 0, v, phys, flags);
    SamePageIff(v, v, 4);
    SamePageIff(u, v, 4);
    var y1 := Exec(X86, y, Map(0, v, phys, flags));
    var root := y1.roots[0];
    SameBigIff(u, v);
    SameBigIff(v, v);
    LeafBelow(y1.s.mem, root, 4, v, u);
    StepMeans(X86, y, y1, 0);
    ReadyIn(X86, y1, 0);
    OneUnit(y1.s, root, v);
    IdentityMapFacts(y1.s, root, v, BIG);
  }

  lemma OneUnit(s: Phys, root: nat, v: U64Value)
    requires v == 0x8000_0000 && !HighLeaf(Walk(X86, s.mem, root, 4, v)) && MissingBig(s.mem, root, 4, v) == 0
    ensures PageIdentity.RangeEnabled(s, root, v, v + BIG) && BigStart(v) == v && BigEnd(v, BIG) == v + BIG
  {
    hide Walk, MissingBig, IdentityPage, Avail;
    assert PageIdentity.RangeEnabled(IdentityPage(s, root, 4, v), root, v + BIG, v + BIG);
  }

  // ---------------------------------------------------------------- two segments in one page

  function TwoInOne(a: Arch): seq<Segment> {
    [Segment(UserBase(a), 0, 1, 1, true), Segment(UserBase(a) + 0x800, 1, 1, 1, true)]
  }

  lemma TwoInOneFacts(a: Arch, u: U64Value)
    ensures Covered(TwoInOne(a), u) <==> UserBase(a) <= u < UserBase(a) + PAGE
    ensures Covered(TwoInOne(a), u) ==> LastOver(TwoInOne(a), u) == TwoInOne(a)[1] && !InStack(a, u)
    ensures PageTotal(TwoInOne(a)) == 2 && forall seg :: seg in TwoInOne(a) ==> SegmentOk(a, seg)
  {
    hide PageStart, PageEnd, PageCount, InStack, SegmentOk;
    var one, two := TwoInOne(a)[0], TwoInOne(a)[1];
    assert TwoInOne(a)[1..] == [two] && [two][1..] == [];
    BaseAligned(a, u);
    InOnePage(a, one, UserBase(a));
    InOnePage(a, two, UserBase(a));
    assert Covered([two], u) <==> Covers(two, u);
    assert PageTotal([two]) == 1;
  }

  lemma BaseAligned(a: Arch, u: U64Value)
    ensures UserBase(a) % PAGE == 0 && UserBase(a) < 0x1_0000_0000
    ensures UserBase(a) <= u < UserBase(a) + PAGE ==> !InStack(a, u)
  {
  }

  /** A segment within one page. */
  lemma InOnePage(a: Arch, seg: Segment, base: nat)
    requires base % PAGE == 0 && base < 0x1_0000_0000
    requires base <= seg.vaddr < seg.vaddr + seg.memsz <= base + PAGE && seg.filesz <= seg.memsz
    ensures PageStart(seg) == base && PageEnd(seg) == base + PAGE && PageCount(base, base + PAGE) == 1 && SegmentOk(a, seg)
  {
    hide SegmentOk, PageStart, PageEnd;
    PagesOfOne(seg, base / PAGE);
    HeaderIsOk(a, seg);
  }

  lemma PagesOfOne(seg: Segment, p: nat)
    requires p * PAGE <= seg.vaddr < seg.vaddr + seg.memsz <= p * PAGE + PAGE < U64 - PAGE
    ensures PageStart(seg) == p * PAGE && PageEnd(seg) == p * PAGE + PAGE
  {
    var x := seg.vaddr + seg.memsz + PAGE - 1;
    assert (seg.vaddr + seg.memsz) % U64 == seg.vaddr + seg.memsz && x % U64 == x;
    Arith.QuotientUnique(seg.vaddr, PAGE, p, seg.vaddr - p * PAGE);
    Arith.QuotientUnique(x, PAGE, p + 1, x - (p + 1) * PAGE);
  }

  /** A booted kernel with enough frames can launch an image of these two segments. */
  lemma TwoInOneReady(a: Arch, y: Sys, id: nat)
    requires Booted(a, y) && id != 0 && Avail(y.s) >= 27
    ensures LaunchReady(a, y, id, TwoInOne(a))
  {
    hide Booted, Inv, Look, Tables, Avail, Covered, PageStart, PageEnd, SegmentOk;
    BootedInv(a, y);
    TwoInOneFacts(a, 0);
    forall u: U64Value
      ensures Covered(TwoInOne(a), u) ==> !InStack(a, u)
      ensures Covered(TwoInOne(a), u) || InStack(a, u) ==> !Stops(Seen(a, y, 0, u))
    {
      TwoInOneFacts(a, u);
      BootedWalk(a, y, u);
    }
  }

  /** The second segment's fresh page replaces the first one's byte by zero. */
  lemma SharedPageLoses(a: Arch, y: Sys, id: nat)
    requires Booted(a, y) && id != 0 && Avail(y.s) >= 27
    ensures var z := Launched(a, y, id, TwoInOne(a), [7, 9]);
            && id in z.roots && Read(a, z.s, z.roots[id], UserBase(a)) == 0
            && Read(a, z.s, z.roots[id], UserBase(a) + 0x800) == 9
            && !ImageCorrect(a, z.s, z.roots[id], TwoInOne(a), [7, 9])
  {
    hide Booted, Inv, Look, Backed, Granted, Read, Launched, Avail, PageStart, PageEnd, Covered, LastOver, SegmentOk, InStack,
      PagesApart, StackApart, LaunchReady, Loading, OthersKept, Agree, StackMapped, NothingLost, PageOf, AllPages, Exec;
    var segs := TwoInOne(a);
    TwoInOneReady(a, y, id);
    TwoInOneFacts(a, UserBase(a));
    TwoInOneFacts(a, UserBase(a) + 0x800);
    LaunchFacts(a, y, id, segs, [7, 9]);
    var z := Launched(a, y, id, segs, [7, 9]);
    assert Holds(a, y.s, z.s, z.roots[id], [7, 9], UserBase(a), LastOver(segs, UserBase(a)));
    assert Holds(a, y.s, z.s, z.roots[id], [7, 9], UserBase(a) + 0x800, LastOver(segs, UserBase(a) + 0x800));
    assert InMemory(segs[0], UserBase(a)) && ImageByte(segs[0], [7, 9], UserBase(a)) == 7;
  }

  // ---------------------------------------------------------------- file bytes that go to physical address 0

  lemma EmptySegment(a: Arch, seg: Segment)
    requires seg == Segment(UserBase(a), 0, 1, 0, true)
    ensures PageStart(seg) == UserBase(a) && PageEnd(seg) == UserBase(a) && RangeOk(a, seg)
    ensures PageCount(PageStart(seg), PageEnd(seg)) == 0
  {
    BaseAligned(a, UserBase(a));
    EmptyPages(a, seg);
  }

  /** One file byte and no memory: no page is mapped, and the byte goes to physical address 0. */
  lemma OverlongWritesZero(a: Arch, y: Sys, id: nat, b: Byte)
    requires Booted(a, y) && id != 0 && Avail(y.s) >= 3
    ensures var y1 := Exec(a, y, Create(id));
            id in y1.roots
            && LoadByte(LoadSegment(a, y1.s, y1.roots[id], Segment(UserBase(a), 0, 1, 0, true), [b]).mem, 0) == b
  {
    hide Booted, Inv, Exec, Avail, LoadSegment, LoadByte, Look, SpaceReady, PageStart, PageEnd, RangeOk, PageCount, FrameOf,
      Footprint;
    var seg := Segment(UserBase(a), 0, 1, 0, true);
    UserBaseFree(a, y, UserBase(a));
    CreateAtBoot(a, y, id, UserBase(a));
    var y1 := Exec(a, y, Create(id));
    ReadyIn(a, y1, id);
    EmptySegment(a, seg);
    ZeroGets(a, y1.s, y1.roots[id], seg, [b], UserBase(a));
  }

  /** The usual link address of a static program, under the boot blocks. */
  const LinkBase: U64Value := 0x40_0000

  /** A sound header with one byte there: the loader takes a frame, maps it nowhere, and writes the byte to
      physical address 0. */
  lemma BlockedWritesZero(a: Arch, y: Sys, id: nat, b: Byte)
    requires Booted(a, y) && id != 0 && Avail(y.s) >= 7
    ensures var seg := Segment(LinkBase, 0, 1, 1, true);
            var y1 := Exec(a, y, Create(id));
            && id in y1.roots && SegmentOk(a, seg) && seg.filesz <= seg.memsz
            && LoadByte(LoadSegment(a, y1.s, y1.roots[id], seg, [b]).mem, 0) == b
  {
    hide Booted, Inv, Exec, Avail, LoadSegment, LoadByte, Look, SpaceReady, PageStart, PageEnd, PageCount, FrameOf, SegmentOk,
      Footprint;
    var seg := Segment(LinkBase, 0, 1, 1, true);
    BootedWalk(a, y, LinkBase);
    CreateAtBoot(a, y, id, LinkBase);
    var y1 := Exec(a, y, Create(id));
    ReadyIn(a, y1, id);
    InOnePage(a, seg, LinkBase);
    SegmentBounds(a, seg);
    ZeroGets(a, y1.s, y1.roots[id], seg, [b], LinkBase);
  }

  // ---------------------------------------------------------------- a page mapped to a table

  function AliasBase(a: Arch): U64Value {
    if a == X86 then 0x8000_0000 else 0xC020_0000
  }

  /** The space after mapping a page, and again after mapping that page to its own leaf table. */
  function MappedOnce(a: Arch, y: Sys, id: nat): Sys {
    Exec(a, Exec(a, y, Create(id)), Map(id, AliasBase(a), 0x5000, 7))
  }

  function Aliased(a: Arch, y: Sys, id: nat): Sys
    requires id in MappedOnce(a, y, id).roots
  {
    var y2 := MappedOnce(a, y, id);
    Exec(a, y2, Map(id, AliasBase(a), TableUnder(a, y2.s.mem, y2.roots[id], Levels(a), AliasBase(a)) * PAGE % U64, 7))
  }

  lemma OnceFacts(a: Arch, y: Sys, id: nat)
    requires Booted(a, y) && id != 0 && Avail(y.s) >= 7
    ensures var y2 := MappedOnce(a, y, id);
            && Inv(a, y2) && 0 in y2.roots && id in y2.roots
            && Seen(a, y2, id, AliasBase(a)) == Leaf(1, LeafEntry(a, 0x5000, 7))
  {
    hide Booted, Look, Inv, Avail, Missing, MapPage, Clone, LeafEntry, StepOk;
    var v := AliasBase(a);
    BootedWalk(a, y, v);
    CreateAtBoot(a, y, id, v);
    var y1 := Exec(a, y, Create(id));
    FewMissing(a, y1.s.mem, y1.roots[id], Levels(a), v);
    StepMap(a, y1, id, v, 0x5000, 7);
    SamePageIff(v, v, Levels(a));
    var y2 := Exec(a, y1, Map(id, v, 0x5000, 7));
    StepMeans(a, y1, y2, id);
    InvHasKernel(a, y2);
  }

  /** A page of a new space mapped to its own leaf table, as vmm_map permits, is an input on which a file byte
      reaches physical address 0 though no address of the segment is translated to 0 beforehand. */
  lemma AliasWritesZero(a: Arch, y: Sys, id: nat, b: Byte)
    requires Booted(a, y) && id != 0 && Avail(y.s) >= 7
    ensures id in MappedOnce(a, y, id).roots
    ensures var seg := Segment(AliasBase(a), 0, 2, 0, true);
            var z := Aliased(a, y, id);
            && id in z.roots && !GoesToZero(a, z.s, z.roots[id], seg, AliasBase(a))
            && !GoesToZero(a, z.s, z.roots[id], seg, AliasBase(a) + 1)
            && LoadByte(LoadSegment(a, z.s, z.roots[id], seg, [0, b]).mem, 0) == b
  {
    hide Booted, Walk, Inv, Avail, MapPage, LeafEntry, MappedOnce, TableUnder, FrameOf, LoadSegment, LoadByte, GoesToZero,
      Foot, Tree, PhysFrame, PastIsData, Free, Sane, StepOk, SpaceReady, RangeOk;
    var v := AliasBase(a);
    OnceFacts(a, y, id);
    var y2 := MappedOnce(a, y, id);
    var root := y2.roots[id];
    Ready(a, y2, id);
    LeafMissesNothing(a, y2.s.mem, root, Levels(a), v);
    TableIsOwn(a, y2.s.mem, root, Levels(a), v);
    FootInRange(a, y2.s.mem, root, Levels(a));
    var T := TableUnder(a, y2.s.mem, root, Levels(a), v);
    FrameFits(a, T, 7);
    assert T * PAGE % U64 == T * PAGE;
    MapKeepsTable(a, y2.s, root, Levels(a), v, T * PAGE, 7);
    StepMap(a, y2, id, v, T * PAGE, 7);
    SamePageIff(v, v, Levels(a));
    var z := Aliased(a, y, id);
    StepMeans(a, y2, z, id);
    ReadyIn(a, z, id);
    AliasRoom(a);
    AliasedTable(a, z.s, root, v, b);
  }

  lemma AliasRoom(a: Arch)
    ensures AliasBase(a) % PAGE == 0 && AliasBase(a) + 2 * PAGE <= PAGE * Pages(Levels(a)) && Index(AliasBase(a), 1) == 0
  {
  }

  lemma Ready(a: Arch, y: Sys, id: nat)
    requires Inv(a, y) && id in y.roots
    ensures Sane(y.s) && Tree(a, y.s.mem, y.roots[id], Levels(a)) && Foot(a, y.s.mem, y.roots[id], Levels(a)) <= y.s.used
  {
    hide Foot, Tree;
    ReadyIn(a, y, id);
  }

  lemma {:induction false} LeafMissesNothing(a: Arch, m: Memory, f: nat, d: Depth, v: U64Value)
    requires Walk(a, m, f, d, v).Leaf?
    ensures Missing(a, m, f, d, v) == 0
    decreases d
  {
    var w := Get(m, f, Index(v, d));
    if d > 1 && IsTable(a, w) {
      LeafMissesNothing(a, m, FrameOf(a, w), d - 1, v);
    }
  }
}

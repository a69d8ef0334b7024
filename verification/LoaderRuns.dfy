/** The loader among the other spaces: create a space, load an image into it, destroy it. */
module LoaderRuns {
  import opened Pmm
  import opened PageTable
  import opened PageAddress
  import opened PageTree
  import opened PageOps
  import opened PageRuns
  import PageTheorems
  import opened PhysBytes
  import opened Loader
  import opened LoaderImage

  /** y with its frames and memory as in t; the frames taken that are no page table are held. */
  ghost function At(a: Arch, y: Sys, t: Phys): Sys {
    y.(s := t, held := t.used - Owned(a, y.(s := t)))
  }

  /** From y to z only space id was worked on, n frames became held, and nothing held was lost. */
  ghost predicate Loading(a: Arch, y: Sys, z: Sys, id: nat, n: nat) {
    && Inv(a, z) && z.roots == y.roots && id in y.roots
    && (forall other :: other in y.roots && other != id ==> SpaceKept(a, y.s.mem, z.s.mem, y.roots[other]))
    && y.held <= z.held && |z.held| == |y.held| + n
  }

  lemma LoadingTwice(a: Arch, x: Sys, y: Sys, z: Sys, id: nat, m: nat, n: nat)
    requires Loading(a, x, y, id, m) && Loading(a, y, z, id, n)
    ensures Loading(a, x, z, id, m + n)
  {
    hide Inv, SpaceKept;
    forall other | other in x.roots && other != id
      ensures SpaceKept(a, x.s.mem, z.s.mem, x.roots[other])
    {
      PageTheorems.KeptTwice(a, x.s.mem, y.s.mem, z.s.mem, x.roots[other]);
    }
  }

  lemma LoadingNothing(a: Arch, y: Sys, id: nat)
    requires Inv(a, y) && id in y.roots
    ensures Loading(a, y, y, id, 0)
  {
    StoppedKernel(a, y);
    hide Inv, SpaceKept;
  }

  lemma HeldIsRest(a: Arch, y: Sys)
    requires Inv(a, y)
    ensures y.held == y.s.used - Owned(a, y)
  {
    hide SpaceOk, Footprint, Sane;
  }

  lemma AtIs(a: Arch, y: Sys, z: Sys)
    requires Inv(a, z) && z.roots == y.roots
    ensures z == At(a, y, z.s)
  {
    hide Inv;
    HeldIsRest(a, z);
    assert Owned(a, z) == Owned(a, y.(s := z.s));
  }

  lemma ReadyIn(a: Arch, y: Sys, id: nat)
    requires Inv(a, y) && id in y.roots
    ensures SpaceReady(a, y.s, y.roots[id])
  {
    OwnIsUsed(a, y, id);
    PageTheorems.SpaceIsTree(a, y, id);
  }

  // ---------------------------------------------------------------- steps of the loader as kernel operations

  lemma OtherLoading(a: Arch, y: Sys, z: Sys, id: nat, n: nat)
    requires Inv(a, y) && id in y.roots && OtherOk(a, y, z)
    requires y.held <= z.held && |z.held| == |y.held| + n
    ensures Loading(a, y, z, id, n)
  {
    hide Inv, SpaceKept;
  }

  lemma TakeLoading(a: Arch, y: Sys, id: nat)
    requires Inv(a, y) && id in y.roots && Avail(y.s) >= 1
    ensures var (s1, g) := AllocFrame(y.s);
            var z := y.(s := s1, held := y.held + {g});
            Loading(a, y, z, id, 1) && g !in y.held
  {
    hide Inv, Footprint, FirstRun, Free, Span, Sane, SpaceKept, OtherOk;
    ReadyIn(a, y, id);
    SaneIn(a, y);
    AllocFacts(y.s);
    StepTake(a, y, 1);
    var (s1, g) := AllocFrame(y.s);
    OwnIsUsed(a, y, id);
    OneFrame(g);
    OtherLoading(a, y, Exec(a, y, Take(1)), id, 1);
  }

  lemma OneFrame(g: nat)
    ensures Span(g, 1) == {g}
  {
  }

  lemma StoreLoading(a: Arch, y: Sys, id: nat, pa: nat, b: Byte)
    requires Inv(a, y) && id in y.roots && pa / PAGE in y.held
    ensures Loading(a, y, y.(s := y.s.(mem := StoreByte(y.s.mem, pa, b))), id, 0)
  {
    hide Inv, SetByte, Value, FromValue;
    var w := Get(y.s.mem, pa / 4096, pa % 4096 / 8);
    ValueInRange(w);
    SetByteInRange(Value(w), pa % 8, b);
    var op := Store(pa / PAGE, pa % 4096 / 8, FromValue(SetByte(Value(w), pa % 8, b)));
    StepStore(a, y, op.frame, op.i, op.w);
    OtherLoading(a, y, Exec(a, y, op), id, 0);
  }

  lemma {:induction false} ZeroLoading(a: Arch, y: Sys, id: nat, f: nat, b: nat)
    requires Inv(a, y) && id in y.roots && f in y.held && b <= PAGE
    ensures Loading(a, y, y.(s := y.s.(mem := ZeroBytes(y.s.mem, f, b))), id, 0)
    decreases PAGE - b
  {
    hide Inv, SpaceKept, StoreByte;
    if b == PAGE {
      LoadingNothing(a, y, id);
    } else {
      InFrame(f, b);
      StoreLoading(a, y, id, f * PAGE + b, 0);
      var y1 := y.(s := y.s.(mem := StoreByte(y.s.mem, f * PAGE + b, 0)));
      ZeroLoading(a, y1, id, f, b + 1);
      LoadingTwice(a, y, y1, y1.(s := y1.s.(mem := ZeroBytes(y1.s.mem, f, b + 1))), id, 0, 0);
    }
  }

  lemma MapLoading(a: Arch, y: Sys, id: nat, va: U64Value, phys: U64Value, flags: Flags)
    requires 0 in y.roots && Enabled(a, y, Map(id, va, phys, flags)) && Inv(a, y)
    ensures Loading(a, y, Exec(a, y, Map(id, va, phys, flags)), id, 0)
  {
    hide Foot, Tree, Walk, MapPage, SpaceOk, SpaceKept, Missing, Avail, Look;
    StepMap(a, y, id, va, phys, flags);
  }

  /** Taking a frame and writing it leaves as many tables missing as before. */
  lemma StillMissing(a: Arch, s: Phys, s2: Phys, g: nat, root: nat, va: U64Value)
    requires SpaceReady(a, s, root) && PageEnabled(a, s, root, va) && g !in s.used && g < |s.mem|
    requires |s2.mem| == |s.mem| && s2.used == s.used + {g}
    requires forall x: nat :: x < |s.mem| && x != g ==> s2.mem[x] == s.mem[x]
    ensures Missing(a, s2.mem, root, Levels(a), va) <= Avail(s2)
  {
    hide Foot, Tree, Walk, Missing, Free;
    TakeOne(s, g);
    FrameWalk(a, s.mem, s2.mem, root, Levels(a), va);
    assert Avail(s2) == Avail(s.(used := s.used + {g}));
  }

  lemma PageLoading(a: Arch, y: Sys, id: nat, va: U64Value, flags: Flags)
    requires Inv(a, y) && id in y.roots && PageEnabled(a, y.s, y.roots[id], va) && PresentFlag(flags)
    ensures Loading(a, y, At(a, y, LoadPage(a, y.s, y.roots[id], va, flags)), id, 1)
  {
    hide Inv, SpaceKept, Missing, StoreByte, Footprint, Avail, AllocFrame, ZeroBytes, MapPage, At, Loading, Stops, Tree;
    var root := y.roots[id];
    ReadyIn(a, y, id);
    assert Avail(y.s) >= 1;
    AllocFacts(y.s);
    TakeLoading(a, y, id);
    var (s1, g) := AllocFrame(y.s);
    var y1 := y.(s := s1, held := y.held + {g});
    LoadingInv(a, y, y1, id, 1);
    ZeroLoading(a, y1, id, g, 0);
    ZeroBytesFacts(s1.mem, g, 0);
    var y2 := y1.(s := s1.(mem := ZeroBytes(s1.mem, g, 0)));
    LoadingInv(a, y1, y2, id, 0);
    StillMissing(a, y.s, y2.s, g, root, va);
    FrameFits(a, g, flags);
    InvHasKernel(a, y2);
    assert Enabled(a, y2, Map(id, va, g * PAGE, flags));
    MapLoading(a, y2, id, va, g * PAGE, flags);
    var z := y2.(s := MapPage(a, y2.s, root, Levels(a), va, g * PAGE, flags));
    LoadingTwice(a, y, y1, y2, id, 1, 0);
    LoadingTwice(a, y, y2, z, id, 1, 0);
    LoadingInv(a, y, z, id, 1);
    AtIs(a, y, z);
  }

  lemma InvHasKernel(a: Arch, y: Sys)
    requires Inv(a, y)
    ensures 0 in y.roots
  {
  }

  lemma LoadingInv(a: Arch, y: Sys, z: Sys, id: nat, n: nat)
    requires Loading(a, y, z, id, n)
    ensures Inv(a, z) && z.roots == y.roots && id in y.roots && y.held <= z.held
  {
    hide Inv;
  }

  lemma AtTwice(a: Arch, y: Sys, t: Phys, z: Phys)
    ensures At(a, At(a, y, t), z) == At(a, y, z)
  {
    hide Footprint;
    assert Owned(a, At(a, y, t).(s := z)) == Owned(a, y.(s := z));
  }

  lemma AtSelf(a: Arch, y: Sys)
    requires Inv(a, y)
    ensures At(a, y, y.s) == y
  {
    AtIs(a, y, y);
  }

  // ---------------------------------------------------------------- loops of the loader

  lemma {:induction false} RangeLoading(a: Arch, y: Sys, id: nat, va: nat, end: nat, flags: Flags)
    requires id in y.roots && PresentFlag(flags) && va % PAGE == 0 && end % PAGE == 0 && end <= U64
    requires RangeEnabled(a, y.s, y.roots[id], va, end, flags) && Inv(a, y)
    ensures Loading(a, y, At(a, y, MapRange(a, y.s, y.roots[id], va, end, flags)), id, PageCount(va, end))
    decreases end - va
  {
    hide Inv, SpaceKept, PageEnabled, LoadPage, At, Loading, PageCount;
    if va < end {
      PageLoading(a, y, id, va, flags);
      var y1 := At(a, y, LoadPage(a, y.s, y.roots[id], va, flags));
      LoadingInv(a, y, y1, id, 1);
      AtState(a, y, LoadPage(a, y.s, y.roots[id], va, flags));
      RangeLoading(a, y1, id, va + PAGE, end, flags);
      CountStep(va, end);
      AtTwice(a, y, y1.s, MapRange(a, y1.s, y.roots[id], va + PAGE, end, flags));
      LoadingTwice(a, y, y1, At(a, y, MapRange(a, y.s, y.roots[id], va, end, flags)), id, 1, PageCount(va + PAGE, end));
    } else {
      AtSelf(a, y);
      LoadingNothing(a, y, id);
      NoCount(va, end);
    }
  }

  lemma NoCount(va: nat, end: nat)
    requires va >= end
    ensures PageCount(va, end) == 0
  {
  }

  lemma AtState(a: Arch, y: Sys, t: Phys)
    ensures At(a, y, t).s == t && At(a, y, t).roots == y.roots
  {
  }

  /** A frame taken while loading, if no table of the space, is held. */
  lemma BackedHeld(a: Arch, y0: Sys, y: Sys, id: nat, n: nat, u: U64Value)
    requires Loading(a, y0, y, id, n) && Backed(a, y0.s, y.s, y.roots[id], u) && Inv(a, y0)
    ensures PhysAddr(a, y.s.mem, y.roots[id], u) / PAGE in y.held
  {
    hide Footprint, Look, FrameOf, SpaceOk, Sane;
    BackedAddr(a, y0.s, y.s, y.roots[id], u);
    var f := FrameOf(a, Look(a, y.s.mem, y.roots[id], u).word);
    if f in Owned(a, y) {
      var other :| other in y.roots && f in Footprint(a, y.s.mem, y.roots[other]);
      assert other != id;
      assert SpaceKept(a, y0.s.mem, y.s.mem, y.roots[other]);
      OwnIsUsed(a, y0, other);
    }
  }

  lemma {:induction false} CopyLoading(a: Arch, y0: Sys, y: Sys, id: nat, n: nat, seg: Segment, file: seq<Byte>, off: nat,
                                       lo: nat, hi: nat)
    requires id in y.roots && AllBacked(a, y0.s, y.s, y.roots[id], lo, hi)
    requires lo <= seg.vaddr && seg.vaddr + seg.filesz <= hi < U64
    requires Loading(a, y0, y, id, n) && Inv(a, y0)
    ensures Loading(a, y0, y.(s := CopyBytes(a, y.s, y.roots[id], seg, file, off)), id, n)
    decreases seg.filesz - off
  {
    hide Inv, Look, Footprint, StoreByte, PhysAddr, Wrote, AllBacked, Loading, SpaceReady, Backed;
    if off < seg.filesz {
      var root := y.roots[id];
      var u0: U64Value := seg.vaddr + off;
      assert (seg.vaddr + off) % U64 == u0;
      var b := ByteAt(file, seg.offset + off);
      LoadingInv(a, y0, y, id, n);
      ReadyIn(a, y, id);
      BackedOne(a, y0.s, y.s, root, lo, hi, u0);
      BackedHeld(a, y0, y, id, n, u0);
      var pa := PhysAddr(a, y.s.mem, root, u0);
      StoreLoading(a, y, id, pa, b);
      var y1 := y.(s := y.s.(mem := StoreByte(y.s.mem, pa, b)));
      LoadingTwice(a, y0, y, y1, id, n, 0);
      StoreWrites(a, y0.s, y.s, root, u0, b);
      WroteBacked(a, y0.s, y.s, y1.s, root, lo, hi);
      CopyLoading(a, y0, y1, id, n, seg, file, off + 1, lo, hi);
    }
  }

  lemma SegmentLoading(a: Arch, y: Sys, id: nat, seg: Segment, file: seq<Byte>)
    requires id in y.roots && SegmentOk(a, seg)
    requires RangeEnabled(a, y.s, y.roots[id], PageStart(seg), PageEnd(seg), SegmentFlags(seg)) && Inv(a, y)
    ensures Loading(a, y, At(a, y, LoadSegment(a, y.s, y.roots[id], seg, file)), id, PageCount(PageStart(seg), PageEnd(seg)))
  {
    hide Inv, Look, Footprint, PageStart, PageEnd, SegmentFlags, Kept, Backed, OwnFrames, SpaceReady, Loaded, AllBacked,
      AllGranted, MapRange, CopyBytes, RangeEnabled, Read, Pages, At, Loading, PageCount;
    var root := y.roots[id];
    ReadyIn(a, y, id);
    SegmentBounds(a, seg);
    FlagsPresent(seg);
    var lo, hi := PageStart(seg), PageEnd(seg);
    RangeLoading(a, y, id, lo, hi, SegmentFlags(seg));
    MapRangeFacts(a, y.s, root, lo, hi, SegmentFlags(seg));
    var m := MapRange(a, y.s, root, lo, hi, SegmentFlags(seg));
    RangeBacked(a, y.s, m, root, lo, hi);
    AtState(a, y, m);
    var y1 := At(a, y, m);
    CopyLoading(a, y, y1, id, PageCount(lo, hi), seg, file, 0, lo, hi);
    var z := y1.(s := CopyBytes(a, m, root, seg, file, 0));
    LoadingInv(a, y, z, id, PageCount(lo, hi));
    AtIs(a, y, z);
  }

  lemma {:induction false} SegmentsLoading(a: Arch, y: Sys, id: nat, segs: seq<Segment>, file: seq<Byte>)
    requires id in y.roots && Ready(a, y.s, y.roots[id], segs) && Inv(a, y)
    ensures Loading(a, y, At(a, y, LoadSegments(a, y.s, y.roots[id], segs, file)), id, PageTotal(segs))
    decreases |segs|
  {
    hide Inv, At, Loading, LoadSegment, PageStart, PageEnd, SegmentFlags, Ready, Kept, PageCount, SegmentOk, RangeEnabled,
      SegmentLoaded, SegmentPages, Levels;
    if segs == [] {
      AtSelf(a, y);
      LoadingNothing(a, y, id);
    } else {
      var n := PageCount(PageStart(segs[0]), PageEnd(segs[0]));
      FirstEnabled(a, y.s, y.roots[id], segs);
      SegmentLoading(a, y, id, segs[0], file);
      ReadyStep(a, y.s, y.roots[id], segs, file);
      var s1 := LoadSegment(a, y.s, y.roots[id], segs[0], file);
      var y1 := At(a, y, s1);
      AtState(a, y, s1);
      LoadingInv(a, y, y1, id, n);
      SegmentsLoading(a, y1, id, segs[1..], file);
      AtTwice(a, y, s1, LoadSegments(a, s1, y.roots[id], segs[1..], file));
      LoadingTwice(a, y, y1, At(a, y, LoadSegments(a, y.s, y.roots[id], segs, file)), id, n, PageTotal(segs[1..]));
    }
  }

  lemma FirstEnabled(a: Arch, s: Phys, root: nat, segs: seq<Segment>)
    requires Ready(a, s, root, segs) && segs != []
    ensures SegmentOk(a, segs[0])
    ensures PageEnd(segs[0]) <= U64 && RangeEnabled(a, s, root, PageStart(segs[0]), PageEnd(segs[0]), SegmentFlags(segs[0]))
  {
    hide SpaceReady, Look, PageStart, PageEnd, SegmentFlags, SegmentOk, Avail, PageCount, Stops;
    assert segs[0] in segs;
    Split(Levels(a), PageCount(PageStart(segs[0]), PageEnd(segs[0])), PageTotal(segs[1..]));
    assert forall u: U64Value :: Covers(segs[0], u) ==> Covered(segs, u);
    SegmentEnough(a, s, root, segs[0], []);
    SegmentBounds(a, segs[0]);
  }

  lemma StackPageLoading(a: Arch, y: Sys, id: nat, i: nat)
    requires id in y.roots && i < STACK_PAGES && PageEnabled(a, y.s, y.roots[id], StackVa(a, i)) && Inv(a, y)
    ensures Loading(a, y, At(a, y, StackPage(a, y.s, y.roots[id], i)), id, 1)
  {
    hide Inv, SpaceKept, Missing, Footprint, Avail, AllocFrame, MapPage, At, Loading, Stops, Tree;
    var root := y.roots[id];
    ReadyIn(a, y, id);
    AllocFacts(y.s);
    TakeLoading(a, y, id);
    var (s1, g) := AllocFrame(y.s);
    var y1 := y.(s := s1, held := y.held + {g});
    LoadingInv(a, y, y1, id, 1);
    StillMissing(a, y.s, s1, g, root, StackVa(a, i));
    FrameFits(a, g, 7);
    InvHasKernel(a, y1);
    assert Enabled(a, y1, Map(id, StackVa(a, i), g * PAGE, 7));
    MapLoading(a, y1, id, StackVa(a, i), g * PAGE, 7);
    var z := y1.(s := MapPage(a, s1, root, Levels(a), StackVa(a, i), g * PAGE, 7));
    LoadingTwice(a, y, y1, z, id, 1, 0);
    LoadingInv(a, y, z, id, 1);
    AtIs(a, y, z);
  }

  lemma {:induction false} StackLoading(a: Arch, y: Sys, id: nat, i: nat)
    requires id in y.roots && i <= STACK_PAGES && StackReady(a, y.s, y.roots[id], i) && Inv(a, y)
    ensures Loading(a, y, At(a, y, MapStack(a, y.s, y.roots[id], i)), id, STACK_PAGES - i)
    decreases STACK_PAGES - i
  {
    hide Inv, At, Loading, StackPage, StackReady, Kept, PageEnabled;
    if i == STACK_PAGES {
      AtSelf(a, y);
      LoadingNothing(a, y, id);
    } else {
      ReadyIn(a, y, id);
      EnoughForStack(a, y.s, y.roots[id], i);
      StackPageLoading(a, y, id, i);
      StackPageFacts(a, y.s, y.roots[id], i);
      var s1 := StackPage(a, y.s, y.roots[id], i);
      StackReadyStep(a, y.s, s1, y.roots[id], i);
      var y1 := At(a, y, s1);
      AtState(a, y, s1);
      LoadingInv(a, y, y1, id, 1);
      StackLoading(a, y1, id, i + 1);
      AtTwice(a, y, s1, MapStack(a, s1, y.roots[id], i + 1));
      LoadingTwice(a, y, y1, At(a, y, MapStack(a, y.s, y.roots[id], i)), id, 1, STACK_PAGES - i - 1);
    }
  }

  /** Loading an image into one space keeps the kernel's invariant and every other space, and makes exactly one
      held frame for every page of the segments and of the stack. */
  lemma ImageLoading(a: Arch, y: Sys, id: nat, segs: seq<Segment>, file: seq<Byte>)
    requires id in y.roots && ImageReady(a, y.s, y.roots[id], segs) && Inv(a, y)
    ensures Loading(a, y, At(a, y, LoadImage(a, y.s, y.roots[id], segs, file)), id, PageTotal(segs) + STACK_PAGES)
  {
    hide Inv, At, Loading, LoadSegments, MapStack, Kept, Avail, Levels, ImageLoaded, PagesApart, StackReady, Ready, ImageReady;
    var root := y.roots[id];
    ReadyForSegments(a, y.s, root, segs);
    SegmentsLoading(a, y, id, segs, file);
    SegmentsFacts(a, y.s, root, segs, file);
    var s1 := LoadSegments(a, y.s, root, segs, file);
    ThenStack(a, y.s, s1, root, segs);
    var y1 := At(a, y, s1);
    AtState(a, y, s1);
    LoadingInv(a, y, y1, id, PageTotal(segs));
    StackLoading(a, y1, id, 0);
    AtTwice(a, y, s1, MapStack(a, s1, root, 0));
    LoadingTwice(a, y, y1, At(a, y, LoadImage(a, y.s, root, segs, file)), id, PageTotal(segs), STACK_PAGES);
  }
}

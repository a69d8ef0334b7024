/** Where a segment's file bytes go when they do not go into pages of its own: under a block leaf nothing is
    mapped, past the segment's pages whatever is mapped there is hit, and where vmm_translate answers 0
    process_run writes to physical address 0. */
module LoaderStray {
  import opened Pmm
  import opened PageTable
  import opened PageAddress
  import opened PageTree
  import opened PageOps
  import opened PageRuns
  import opened PhysBytes
  import opened Loader
  import opened LoaderImage

  // ---------------------------------------------------------------- mapping, blocks or not

  lemma {:induction false} StopsMissesNothing(a: Arch, m: Memory, f: nat, d: Depth, v: U64Value)
    requires Stops(Walk(a, m, f, d, v))
    ensures Missing(a, m, f, d, v) == 0
    decreases d
  {
    var w := Get(m, f, Index(v, d));
    if d > 1 && IsTable(a, w) {
      StopsMissesNothing(a, m, FrameOf(a, w), d - 1, v);
    }
  }

  /** One turn of the mapping loop, whatever is mapped at va: the page is backed by the frame taken, or a block
      is in the way and the frame is mapped nowhere. */
  lemma LoadPageAny(a: Arch, s: Phys, root: nat, va: U64Value, flags: Flags)
    requires SpaceReady(a, s, root) && Missing(a, s.mem, root, Levels(a), va) + 1 <= Avail(s) && PresentFlag(flags)
    ensures var t := LoadPage(a, s, root, va, flags);
            && Kept(a, s, t, root, {PageOf(a, va)}) && Avail(t) + Levels(a) >= Avail(s)
            && Avail(t) == Avail(s) - Missing(a, s.mem, root, Levels(a), va) - 1
            && forall u :: PageOf(a, u) == PageOf(a, va) ==>
                 if Stops(Look(a, s.mem, root, va)) then Look(a, t.mem, root, u) == Look(a, s.mem, root, u)
                 else Backed(a, s, t, root, u)
  {
    hide Footprint, Tree, Look, MapPage, LeafEntry, FrameOf, PageOf, StoreByte, AllocFrame, Free, Stops;
    AllocFacts(s);
    var (s1, g) := AllocFrame(s);
    ZeroBytesFacts(s1.mem, g, 0);
    MapAny(a, s, s1.(mem := ZeroBytes(s1.mem, g, 0)), g, root, va, flags);
  }

  /** Each page under a block costs one frame: it is taken and cleared, and no walk of the space changes. */
  lemma BlockedPageLeaks(a: Arch, s: Phys, root: nat, va: U64Value, flags: Flags)
    requires SpaceReady(a, s, root) && Stops(Look(a, s.mem, root, va)) && Avail(s) >= 1 && PresentFlag(flags)
    ensures var t := LoadPage(a, s, root, va, flags);
            && Avail(t) == Avail(s) - 1 && s.used <= t.used
            && forall u :: Look(a, t.mem, root, u) == Look(a, s.mem, root, u)
  {
    hide SpaceReady, Walk, LoadPage, Missing, Avail, Footprint, PageOf, Stops;
    StopsMissesNothing(a, s.mem, root, Levels(a), va);
    LoadPageAny(a, s, root, va, flags);
  }

  /** The pages of [va, end) afterwards: each one backed by a frame of its own, or still under its block. */
  lemma {:induction false} RangeAny(a: Arch, s: Phys, root: nat, va: nat, end: nat, flags: Flags)
    requires SpaceReady(a, s, root) && PresentFlag(flags)
    requires va % PAGE == 0 && end % PAGE == 0 && end <= PAGE * Pages(Levels(a))
    requires Levels(a) * PageCount(va, end) <= Avail(s)
    ensures var t := MapRange(a, s, root, va, end, flags);
            && Kept(a, s, t, root, PagesIn(va, end))
            && forall u: U64Value :: va <= u < end ==>
                 if Stops(Look(a, s.mem, root, u)) then Look(a, t.mem, root, u) == Look(a, s.mem, root, u)
                 else Backed(a, s, t, root, u)
    decreases end - va
  {
    hide Footprint, Tree, Look, PageOf, Kept, Backed, LoadPage, Avail, Stops, PageCount, SpaceReady, PagesIn, Missing;
    if va < end {
      CountStep(va, end);
      Split(Levels(a), 1, PageCount(va + PAGE, end));
      FewMissing(a, s.mem, root, Levels(a), va);
      LoadPageAny(a, s, root, va, flags);
      var s1 := LoadPage(a, s, root, va, flags);
      KeptReady(a, s, s1, root, {PageOf(a, va)});
      RangeAny(a, s1, root, va + PAGE, end, flags);
      var t := MapRange(a, s1, root, va + PAGE, end, flags);
      KeptTwice(a, s, s1, t, root, {PageOf(a, va)}, PagesIn(va + PAGE, end));
      PageOfInside(a, va);
      PagesStep(va, end);
      forall u: U64Value | va <= u < end
        ensures if Stops(Look(a, s.mem, root, u)) then Look(a, t.mem, root, u) == Look(a, s.mem, root, u)
                else Backed(a, s, t, root, u)
      {
        PlaceAny(a, s, s1, t, root, va, end, u);
      }
    } else {
      KeptNothing(a, s, root);
      NoPages(a, s, root, va, end);
    }
  }

  lemma PlaceAny(a: Arch, s: Phys, s1: Phys, t: Phys, root: nat, va: nat, end: nat, u: U64Value)
    requires va % PAGE == 0 && end % PAGE == 0 && va <= u < end <= PAGE * Pages(Levels(a))
    requires Kept(a, s, s1, root, {PageOf(a, va)}) && Kept(a, s1, t, root, PagesIn(va + PAGE, end))
    requires forall w :: PageOf(a, w) == PageOf(a, va) ==>
               if Stops(Look(a, s.mem, root, va)) then Look(a, s1.mem, root, w) == Look(a, s.mem, root, w)
               else Backed(a, s, s1, root, w)
    requires forall w: U64Value :: va + PAGE <= w < end ==>
               if Stops(Look(a, s1.mem, root, w)) then Look(a, t.mem, root, w) == Look(a, s1.mem, root, w)
               else Backed(a, s1, t, root, w)
    ensures if Stops(Look(a, s.mem, root, u)) then Look(a, t.mem, root, u) == Look(a, s.mem, root, u)
            else Backed(a, s, t, root, u)
  {
    hide Footprint, Look, PageOf, FrameOf, PagesIn, Stops;
    PageOfInside(a, u);
    PageOfInside(a, va);
    PagesStep(va, end);
    if u < va + PAGE {
      SamePageNumber(va, u);
      SameStop(a, s.mem, root, va, u);
      if !Stops(Look(a, s.mem, root, va)) {
        BackedKept(a, s, s1, t, root, PagesIn(va + PAGE, end), u);
      }
    } else {
      NextPage(va, u);
    }
  }

  lemma NextPage(va: nat, u: nat)
    requires va % PAGE == 0 && u >= va + PAGE
    ensures u / PAGE != va / PAGE
  {
    Whole(va);
  }

  lemma SameStop(a: Arch, m: Memory, root: nat, v: U64Value, u: U64Value)
    requires PageOf(a, u) == PageOf(a, v)
    ensures Look(a, m, root, u) == Look(a, m, root, v)
  {
    SamePageIff(u, v, Levels(a));
    WalkAgrees(a, m, root, Levels(a), u, v);
  }

  lemma {:induction false} WalkAgrees(a: Arch, m: Memory, f: nat, d: Depth, u: U64Value, v: U64Value)
    requires SamePage(u, v, d)
    ensures Walk(a, m, f, d, u) == Walk(a, m, f, d, v)
    decreases d
  {
    var w := Get(m, f, Index(v, d));
    if d > 1 && IsTable(a, w) {
      WalkAgrees(a, m, FrameOf(a, w), d - 1, u, v);
    }
  }

  // ---------------------------------------------------------------- copying, wherever the bytes land

  /** The byte for u lands in no table of the space. */
  ghost predicate Harmless(a: Arch, s: Phys, root: nat, u: U64Value) {
    PhysAddr(a, s.mem, root, u) / PAGE !in Footprint(a, s.mem, root)
  }

  ghost predicate AllHarmless(a: Arch, s: Phys, root: nat, lo: nat, hi: nat) {
    forall u: U64Value :: lo <= u < hi ==> Harmless(a, s, root, u)
  }

  /** A byte stored outside the tables changes that byte, if there is memory, and no walk. */
  lemma StoreOutside(a: Arch, s: Phys, root: nat, u: U64Value, b: Byte)
    requires SpaceReady(a, s, root) && Harmless(a, s, root, u)
    ensures var pa := PhysAddr(a, s.mem, root, u);
            var t := s.(mem := StoreByte(s.mem, pa, b));
            && SpaceReady(a, t, root) && Footprint(a, t.mem, root) == Footprint(a, s.mem, root)
            && (forall v :: Look(a, t.mem, root, v) == Look(a, s.mem, root, v))
            && forall qa: nat :: LoadByte(t.mem, qa) == if qa == pa && pa / PAGE < |s.mem| then b else LoadByte(s.mem, qa)
  {
    hide Foot, Tree, Walk, StoreByte, LoadByte, PhysAddr;
    var pa := PhysAddr(a, s.mem, root, u);
    var t := s.(mem := StoreByte(s.mem, pa, b));
    forall qa: nat
      ensures LoadByte(t.mem, qa) == if qa == pa && pa / PAGE < |s.mem| then b else LoadByte(s.mem, qa)
    {
      if pa / PAGE < |s.mem| { LoadStore(s.mem, pa, b, qa); } else { StoreNowhere(s.mem, pa, b); }
    }
    if pa / PAGE < |s.mem| { LoadStore(s.mem, pa, b, 0); } else { StoreNowhere(s.mem, pa, b); }
    Frame(a, s.mem, t.mem, root, Levels(a));
    forall v
      ensures Look(a, t.mem, root, v) == Look(a, s.mem, root, v)
    {
      FrameWalk(a, s.mem, t.mem, root, Levels(a), v);
    }
  }

  lemma StoreNowhere(m: Memory, pa: nat, b: Byte)
    requires pa / PAGE >= |m|
    ensures StoreByte(m, pa, b) == m
  {
    hide SetByte, FromValue, Value;
  }

  /** An address none of the bytes goes to keeps its byte. */
  lemma {:induction false} CopyMisses(a: Arch, s: Phys, root: nat, seg: Segment, file: seq<Byte>, off: nat, pa: nat)
    requires SpaceReady(a, s, root) && seg.vaddr + seg.filesz < U64
    requires AllHarmless(a, s, root, seg.vaddr + off, seg.vaddr + seg.filesz)
    requires forall u: U64Value :: seg.vaddr + off <= u < seg.vaddr + seg.filesz ==> PhysAddr(a, s.mem, root, u) != pa
    ensures LoadByte(CopyBytes(a, s, root, seg, file, off).mem, pa) == LoadByte(s.mem, pa)
    decreases seg.filesz - off
  {
    hide Footprint, Look, StoreByte, LoadByte, SpaceReady;
    if off < seg.filesz {
      var u0: U64Value := seg.vaddr + off;
      assert (seg.vaddr + off) % U64 == u0 && Harmless(a, s, root, u0);
      StoreOutside(a, s, root, u0, ByteAt(file, seg.offset + off));
      var s1 := s.(mem := StoreByte(s.mem, PhysAddr(a, s.mem, root, u0), ByteAt(file, seg.offset + off)));
      SameHarm(a, s, s1, root, seg.vaddr + off + 1, seg.vaddr + seg.filesz);
      CopyMisses(a, s1, root, seg, file, off + 1, pa);
    }
  }

  lemma SameHarm(a: Arch, s: Phys, s1: Phys, root: nat, lo: nat, hi: nat)
    requires lo > 0 && AllHarmless(a, s, root, lo - 1, hi)
    requires Footprint(a, s1.mem, root) == Footprint(a, s.mem, root)
    requires forall v :: Look(a, s1.mem, root, v) == Look(a, s.mem, root, v)
    ensures AllHarmless(a, s1, root, lo, hi)
    ensures forall v :: PhysAddr(a, s1.mem, root, v) == PhysAddr(a, s.mem, root, v)
  {
    hide Footprint, Look;
    forall u: U64Value | lo <= u < hi
      ensures Harmless(a, s1, root, u)
    {
      assert Harmless(a, s, root, u);
    }
  }

  /** The last byte that goes to an address stays there. */
  lemma {:induction false} CopyLands(a: Arch, s: Phys, root: nat, seg: Segment, file: seq<Byte>, off: nat, u: U64Value)
    requires SpaceReady(a, s, root) && seg.vaddr + seg.filesz < U64
    requires AllHarmless(a, s, root, seg.vaddr + off, seg.vaddr + seg.filesz)
    requires seg.vaddr + off <= u < seg.vaddr + seg.filesz && PhysAddr(a, s.mem, root, u) / PAGE < |s.mem|
    requires forall v: U64Value :: u < v < seg.vaddr + seg.filesz ==>
               PhysAddr(a, s.mem, root, v) != PhysAddr(a, s.mem, root, u)
    ensures LoadByte(CopyBytes(a, s, root, seg, file, off).mem, PhysAddr(a, s.mem, root, u))
         == ByteAt(file, seg.offset + (u - seg.vaddr))
    decreases seg.filesz - off
  {
    hide Footprint, Look, StoreByte, LoadByte, SpaceReady, PhysAddr, Harmless;
    var u0: U64Value := seg.vaddr + off;
    assert (seg.vaddr + off) % U64 == u0 && Harmless(a, s, root, u0);
    StoreOutside(a, s, root, u0, ByteAt(file, seg.offset + off));
    var s1 := s.(mem := StoreByte(s.mem, PhysAddr(a, s.mem, root, u0), ByteAt(file, seg.offset + off)));
    SameHarm(a, s, s1, root, seg.vaddr + off + 1, seg.vaddr + seg.filesz);
    if u == u0 {
      CopyMisses(a, s1, root, seg, file, off + 1, PhysAddr(a, s.mem, root, u));
    } else {
      CopyLands(a, s1, root, seg, file, off + 1, u);
    }
  }

  // ---------------------------------------------------------------- a segment anywhere

  /** Past the segment's pages, no 4KB page is mapped to a table of the space or to a free frame. */
  ghost predicate PastIsData(a: Arch, s: Phys, root: nat, seg: Segment) {
    forall u: U64Value :: PageEnd(seg) <= u < seg.vaddr + seg.filesz ==>
      var h := Look(a, s.mem, root, u);
      h.Leaf? && h.level == 1 ==> FrameOf(a, h.word) !in Footprint(a, s.mem, root) && FrameOf(a, h.word) !in Free(s.used, |s.mem|)
  }

  /** What a caller checks: addresses the tables can tell apart, and frames enough. */
  ghost predicate StrayReady(a: Arch, s: Phys, root: nat, seg: Segment) {
    && SpaceReady(a, s, root) && RangeOk(a, seg) && seg.vaddr + seg.filesz <= PAGE * Pages(Levels(a))
    && Levels(a) * PageCount(PageStart(seg), PageEnd(seg)) <= Avail(s) && PastIsData(a, s, root, seg)
  }

  /** The file byte for u goes to physical address 0: u lies in the segment's pages under a block, or past them
      where nothing or a block is mapped, or at the start of a page mapped to frame 0. */
  ghost predicate GoesToZero(a: Arch, s: Phys, root: nat, seg: Segment, u: U64Value) {
    var h := Look(a, s.mem, root, u);
    if u < PageEnd(seg) then Stops(h)
    else h.Miss? || Stops(h) || (FrameOf(a, h.word) == 0 && u % PAGE == 0)
  }

  function SegmentMapped(a: Arch, s: Phys, root: nat, seg: Segment): Phys {
    MapRange(a, s, root, PageStart(seg), PageEnd(seg), SegmentFlags(seg))
  }

  lemma AfterMapping(a: Arch, s: Phys, root: nat, seg: Segment)
    requires StrayReady(a, s, root, seg)
    ensures var m := SegmentMapped(a, s, root, seg);
            && SpaceReady(a, m, root) && |m.mem| == |s.mem| && seg.vaddr + seg.filesz < U64
            && LoadByte(m.mem, 0) == LoadByte(s.mem, 0) && |s.mem| > 0
            && (forall u: U64Value :: seg.vaddr <= u < PageEnd(seg) ==>
                  if Stops(Look(a, s.mem, root, u)) then Look(a, m.mem, root, u) == Look(a, s.mem, root, u)
                  else Backed(a, s, m, root, u))
            && (forall u: U64Value :: PageEnd(seg) <= u < seg.vaddr + seg.filesz ==>
                  Look(a, m.mem, root, u) == Look(a, s.mem, root, u))
            && Footprint(a, m.mem, root) <= Footprint(a, s.mem, root) + (m.used - s.used) && s.used <= m.used && Sane(m)
  {
    hide PageStart, PageEnd, SegmentFlags, Look, Footprint, PagesIn, PageOf, MapRange, LoadByte, Pages, Avail, PageCount, Backed,
      Stops, PastIsData;
    SegmentRange(a, seg);
    FlagsPresent(seg);
    TopOfTables(a);
    RangeAny(a, s, root, PageStart(seg), PageEnd(seg), SegmentFlags(seg));
    var m := SegmentMapped(a, s, root, seg);
    ZeroKept(a, s, m, root, PagesIn(PageStart(seg), PageEnd(seg)));
    forall u: U64Value | PageEnd(seg) <= u < seg.vaddr + seg.filesz
      ensures Look(a, m.mem, root, u) == Look(a, s.mem, root, u)
    {
      PageOfInside(a, u);
      InRange(PageStart(seg), PageEnd(seg), u);
    }
  }

  lemma TopOfTables(a: Arch)
    ensures PAGE * Pages(Levels(a)) < U64
  {
  }

  lemma ZeroKept(a: Arch, s: Phys, m: Phys, root: nat, P: set<nat>)
    requires SpaceReady(a, s, root) && Kept(a, s, m, root, P)
    ensures LoadByte(m.mem, 0) == LoadByte(s.mem, 0) && |s.mem| > 0
  {
    hide Foot, Tree, Look, LoadByte, PageOf;
    FootInRange(a, s.mem, root, Levels(a));
    SameByte(s.mem, m.mem, 0);
  }

  /** Every byte of the copying loop lands outside the tables; and which ones land at 0. */
  lemma LandsOutside(a: Arch, s: Phys, root: nat, seg: Segment, u: U64Value)
    requires StrayReady(a, s, root, seg) && seg.vaddr <= u < seg.vaddr + seg.filesz
    ensures var m := SegmentMapped(a, s, root, seg);
            Harmless(a, m, root, u) && (PhysAddr(a, m.mem, root, u) == 0 <==> GoesToZero(a, s, root, seg, u))
  {
    hide PageStart, PageEnd, SegmentFlags, Look, Tree, PagesIn, PageOf, MapRange, LoadByte, Pages, Avail, PageCount, FrameOf, Foot,
      SegmentMapped;
    AfterMapping(a, s, root, seg);
    var m := SegmentMapped(a, s, root, seg);
    FootInRange(a, m.mem, root, Levels(a));
    if u < PageEnd(seg) && !Stops(Look(a, s.mem, root, u)) {
      BackedAddr(a, s, m, root, u);
    } else {
      var h := Look(a, s.mem, root, u);
      if h.Leaf? && h.level == 1 {
        InFrame(FrameOf(a, h.word), u % PAGE);
      }
    }
  }

  lemma AllOutside(a: Arch, s: Phys, root: nat, seg: Segment)
    requires StrayReady(a, s, root, seg)
    ensures AllHarmless(a, SegmentMapped(a, s, root, seg), root, seg.vaddr, seg.vaddr + seg.filesz)
  {
    hide StrayReady, Harmless, SegmentMapped, GoesToZero;
    forall u: U64Value | seg.vaddr <= u < seg.vaddr + seg.filesz
      ensures Harmless(a, SegmentMapped(a, s, root, seg), root, u)
    {
      LandsOutside(a, s, root, seg, u);
    }
  }

  /** The last file byte that goes to physical address 0 is found there afterwards. */
  lemma ZeroGets(a: Arch, s: Phys, root: nat, seg: Segment, file: seq<Byte>, u: U64Value)
    requires StrayReady(a, s, root, seg) && seg.vaddr <= u < seg.vaddr + seg.filesz && GoesToZero(a, s, root, seg, u)
    requires forall v: U64Value :: u < v < seg.vaddr + seg.filesz ==> !GoesToZero(a, s, root, seg, v)
    ensures LoadByte(LoadSegment(a, s, root, seg, file).mem, 0) == ByteAt(file, seg.offset + (u - seg.vaddr))
  {
    hide StrayReady, SegmentMapped, GoesToZero, CopyBytes, PhysAddr, LoadByte, AllHarmless, SpaceReady, Look, Backed, Footprint, Stops,
      Sane;
    AfterMapping(a, s, root, seg);
    AllOutside(a, s, root, seg);
    LandsOutside(a, s, root, seg, u);
    var m := SegmentMapped(a, s, root, seg);
    forall v: U64Value | u < v < seg.vaddr + seg.filesz
      ensures PhysAddr(a, m.mem, root, v) != PhysAddr(a, m.mem, root, u)
    {
      LandsOutside(a, s, root, seg, v);
    }
    CopyLands(a, m, root, seg, file, 0, u);
    LoadIsCopy(a, s, root, seg, file);
  }

  lemma LoadIsCopy(a: Arch, s: Phys, root: nat, seg: Segment, file: seq<Byte>)
    ensures LoadSegment(a, s, root, seg, file) == CopyBytes(a, SegmentMapped(a, s, root, seg), root, seg, file, 0)
  {
  }

  /** Past the segment's pages the file bytes go into whatever is mapped there. */
  lemma PastByteLands(a: Arch, s: Phys, root: nat, seg: Segment, file: seq<Byte>, k: nat, u: U64Value)
    requires u == seg.vaddr + k && k < seg.filesz && PageEnd(seg) <= u && StrayReady(a, s, root, seg)
    requires var pa := PhysAddr(a, s.mem, root, u);
             pa / PAGE < |s.mem| && forall v: U64Value :: u < v < seg.vaddr + seg.filesz ==> PhysAddr(a, s.mem, root, v) != pa
    ensures LoadByte(LoadSegment(a, s, root, seg, file).mem, PhysAddr(a, s.mem, root, u))
         == ByteAt(file, seg.offset + k)
  {
    hide StrayReady, SegmentMapped, CopyBytes, LoadByte, AllHarmless, SpaceReady, Look, PageStart, PageEnd, RangeOk;
    AfterMapping(a, s, root, seg);
    AllOutside(a, s, root, seg);
    var m := SegmentMapped(a, s, root, seg);
    forall v: U64Value | u <= v < seg.vaddr + seg.filesz
      ensures PhysAddr(a, m.mem, root, v) == PhysAddr(a, s.mem, root, v)
    {
    }
    CopyLands(a, m, root, seg, file, 0, u);
    LoadIsCopy(a, s, root, seg, file);
  }

  /** Among the bytes from u on that go to 0 there is a last one. */
  lemma {:induction false} LastToZero(a: Arch, s: Phys, root: nat, seg: Segment, u: U64Value) returns (w: U64Value)
    requires u < seg.vaddr + seg.filesz < U64 && GoesToZero(a, s, root, seg, u)
    ensures u <= w < seg.vaddr + seg.filesz && GoesToZero(a, s, root, seg, w)
    ensures forall v: U64Value :: w < v < seg.vaddr + seg.filesz ==> !GoesToZero(a, s, root, seg, v)
    decreases seg.vaddr + seg.filesz - u
  {
    hide GoesToZero;
    if next: U64Value :| u < next < seg.vaddr + seg.filesz && GoesToZero(a, s, root, seg, next) {
      w := LastToZero(a, s, root, seg, next);
    } else {
      w := u;
    }
  }

  /** Loading a segment leaves the byte at physical address 0 alone, whatever the file holds, exactly when none of
      its file bytes goes there. */
  lemma ZeroSparedIff(a: Arch, s: Phys, root: nat, seg: Segment)
    requires StrayReady(a, s, root, seg)
    ensures (forall file :: LoadByte(LoadSegment(a, s, root, seg, file).mem, 0) == LoadByte(s.mem, 0))
            <==> forall u: U64Value :: seg.vaddr <= u < seg.vaddr + seg.filesz ==> !GoesToZero(a, s, root, seg, u)
  {
    hide StrayReady, GoesToZero, LoadSegment, LoadByte;
    if u: U64Value :| seg.vaddr <= u < seg.vaddr + seg.filesz && GoesToZero(a, s, root, seg, u) {
      var _ := ZeroChanges(a, s, root, seg, u);
    } else {
      forall file
        ensures LoadByte(LoadSegment(a, s, root, seg, file).mem, 0) == LoadByte(s.mem, 0)
      {
        ZeroSpared(a, s, root, seg, file);
      }
    }
  }

  lemma ZeroChanges(a: Arch, s: Phys, root: nat, seg: Segment, u: U64Value) returns (file: seq<Byte>)
    requires seg.vaddr <= u < seg.vaddr + seg.filesz && GoesToZero(a, s, root, seg, u) && StrayReady(a, s, root, seg)
    ensures LoadByte(LoadSegment(a, s, root, seg, file).mem, 0) != LoadByte(s.mem, 0)
  {
    hide StrayReady, GoesToZero, LoadSegment, LoadByte, SegmentMapped, Backed, Look, Footprint, SpaceReady, Stops, Sane;
    AfterMapping(a, s, root, seg);
    var w := LastToZero(a, s, root, seg, u);
    var b: Byte := (LoadByte(s.mem, 0) + 1) % 256;
    file := seq(seg.offset + seg.filesz, _ => b);
    ZeroGets(a, s, root, seg, file, w);
    assert ByteAt(file, seg.offset + (w - seg.vaddr)) == b;
  }

  lemma ZeroSpared(a: Arch, s: Phys, root: nat, seg: Segment, file: seq<Byte>)
    requires StrayReady(a, s, root, seg)
    requires forall u: U64Value :: seg.vaddr <= u < seg.vaddr + seg.filesz ==> !GoesToZero(a, s, root, seg, u)
    ensures LoadByte(LoadSegment(a, s, root, seg, file).mem, 0) == LoadByte(s.mem, 0)
  {
    hide StrayReady, GoesToZero, SegmentMapped, CopyBytes, PhysAddr, LoadByte, AllHarmless, SpaceReady;
    AfterMapping(a, s, root, seg);
    AllOutside(a, s, root, seg);
    var m := SegmentMapped(a, s, root, seg);
    forall u: U64Value | seg.vaddr <= u < seg.vaddr + seg.filesz
      ensures PhysAddr(a, m.mem, root, u) != 0
    {
      LandsOutside(a, s, root, seg, u);
    }
    CopyMisses(a, m, root, seg, file, 0, 0);
    LoadIsCopy(a, s, root, seg, file);
  }

  // ---------------------------------------------------------------- why pages past the segment must be data

  /** The leaf table on the walk of v. */
  function TableUnder(a: Arch, m: Memory, f: nat, d: Depth, v: U64Value): nat
    decreases d
  {
    if d == 1 then f else TableUnder(a, m, FrameOf(a, Get(m, f, Index(v, d))), d - 1, v)
  }

  lemma {:induction false} TableIsOwn(a: Arch, m: Memory, f: nat, d: Depth, v: U64Value)
    requires Tree(a, m, f, d) && Walk(a, m, f, d, v).Leaf? && Walk(a, m, f, d, v).level == 1
    ensures TableUnder(a, m, f, d, v) in Foot(a, m, f, d)
    decreases d
  {
    hide Index, IsTable, Present, FrameOf;
    if d > 1 {
      FootParts(a, m, f, d, Index(v, d));
      TableIsOwn(a, m, Kid(a, m, f, Index(v, d)), d - 1, v);
    }
  }

  /** Taking v's entry out of its leaf table makes its walk miss. */
  lemma {:induction false} ClearedWalk(a: Arch, m: Memory, n: Memory, f: nat, d: Depth, v: U64Value)
    requires Tree(a, m, f, d) && Walk(a, m, f, d, v).Leaf? && Walk(a, m, f, d, v).level == 1 && |n| == |m|
    requires forall x: nat :: x < |m| && x != TableUnder(a, m, f, d, v) ==> n[x] == m[x]
    requires !Present(Get(n, TableUnder(a, m, f, d, v), Index(v, 1)))
    ensures Walk(a, n, f, d, v) == Miss
    decreases d
  {
    hide Index, IsTable, Present, FrameOf;
    if d > 1 {
      FootParts(a, m, f, d, Index(v, d));
      TableIsOwn(a, m, Kid(a, m, f, Index(v, d)), d - 1, v);
      ClearedWalk(a, m, n, Kid(a, m, f, Index(v, d)), d - 1, v);
    }
  }

  /** A page mapped to its own leaf table: the first file byte takes out the page's entry, and the second one goes
      to physical address 0, though vmm_translate gave neither address 0 to begin with. */
  lemma AliasedTable(a: Arch, s: Phys, root: nat, v: U64Value, b: Byte)
    requires SpaceReady(a, s, root) && v % PAGE == 0 && v + 2 * PAGE <= PAGE * Pages(Levels(a)) && Index(v, 1) == 0
    requires var h := Look(a, s.mem, root, v);
             h.Leaf? && h.level == 1 && FrameOf(a, h.word) == TableUnder(a, s.mem, root, Levels(a), v)
    ensures var seg := Segment(v, 0, 2, 0, true);
            && RangeOk(a, seg) && !GoesToZero(a, s, root, seg, v) && !GoesToZero(a, s, root, seg, v + 1)
            && !PastIsData(a, s, root, seg)
            && LoadByte(LoadSegment(a, s, root, seg, [0, b]).mem, 0) == b
  {
    hide Foot, Tree, Walk, LoadByte, TableUnder, FrameOf, StoreByte;
    var seg := Segment(v, 0, 2, 0, true);
    var T := TableUnder(a, s.mem, root, Levels(a), v);
    EmptyPages(a, seg);
    SamePageNumber(v, v + 1);
    SameStop(a, s.mem, root, v, v + 1);
    TableIsOwn(a, s.mem, root, Levels(a), v);
    FootInRange(a, s.mem, root, Levels(a));
    InFrame(T, 0);
    var m1 := StoreByte(s.mem, T * PAGE, 0);
    ZeroedEntry(s.mem, T);
    LoadStore(s.mem, T * PAGE, 0, 0);
    ClearedWalk(a, s.mem, m1, root, Levels(a), v);
    SameStop(a, m1, root, v, v + 1);
    LoadStore(m1, 0, b, 0);
    TwoBytes(a, s, root, seg, [0, b], T * PAGE, 0);
  }

  lemma EmptyPages(a: Arch, seg: Segment)
    requires seg.memsz == 0 && seg.vaddr % PAGE == 0 && seg.vaddr + 2 * PAGE <= PAGE * Pages(Levels(a))
    ensures PageStart(seg) == seg.vaddr && PageEnd(seg) == seg.vaddr && RangeOk(a, seg)
  {
    SegmentRange(a, seg);
    Whole(seg.vaddr);
    var p := seg.vaddr / PAGE;
    assert (seg.vaddr + PAGE - 1) / PAGE == p;
  }

  /** A zero byte at the start of a table makes its first entry absent. */
  lemma ZeroedEntry(m: Memory, f: nat)
    requires f < |m|
    ensures !Present(Get(StoreByte(m, f * PAGE, 0), f, 0))
  {
    hide SetByte, Value, FromValue;
    InFrame(f, 0);
    var w := Get(m, f, 0);
    ValueInRange(w);
    SetByteInRange(Value(w), 0, 0);
    LowByteZero(Value(w));
    EvenIsAbsent(SetByte(Value(w), 0, 0));
  }

  lemma LowByteZero(n: nat)
    ensures SetByte(n, 0, 0) % 256 == 0
  {
    assert SetByte(n, 0, 0) == n / 256 * 256;
  }

  lemma EvenIsAbsent(n: U64Value)
    requires n % 256 == 0
    ensures !Present(FromValue(n))
  {
  }

  lemma TwoBytes(a: Arch, s: Phys, root: nat, seg: Segment, file: seq<Byte>, pa: nat, qa: nat)
    requires |file| == 2 && seg == Segment(seg.vaddr, 0, 2, 0, true) && seg.vaddr + 1 < U64
    requires PageStart(seg) == PageEnd(seg) && PhysAddr(a, s.mem, root, seg.vaddr) == pa
    requires PhysAddr(a, StoreByte(s.mem, pa, file[0]), root, seg.vaddr + 1) == qa
    ensures LoadSegment(a, s, root, seg, file).mem == StoreByte(StoreByte(s.mem, pa, file[0]), qa, file[1])
  {
    hide PhysAddr, StoreByte, PageStart, PageEnd;
    var s1 := s.(mem := StoreByte(s.mem, pa, file[0]));
    var s2 := s1.(mem := StoreByte(s1.mem, qa, file[1]));
    assert seg.vaddr % U64 == seg.vaddr && (seg.vaddr + 1) % U64 == seg.vaddr + 1;
    assert CopyBytes(a, s2, root, seg, file, 2) == s2;
    assert CopyBytes(a, s1, root, seg, file, 1) == s2;
  }

  /** Mapping a page again leaves it in the same leaf table. */
  lemma {:induction false} MapKeepsTable(a: Arch, s: Phys, f: nat, d: Depth, v: U64Value, phys: U64Value, flags: Flags)
    requires MapReady(a, s, f, d, v) && Walk(a, s.mem, f, d, v).Leaf? && Walk(a, s.mem, f, d, v).level == 1
    ensures TableUnder(a, MapPage(a, s, f, d, v, phys, flags).mem, f, d, v) == TableUnder(a, s.mem, f, d, v)
    decreases d
  {
    hide Foot, KidFoot, Tree, Index, GetOrCreate, Avail;
    if d > 1 {
      var i := Index(v, d);
      TableNotBlocked(a, Get(s.mem, f, i));
      DescendFacts(a, s, f, d, i, UserFlag(flags));
      DescendMissing(a, s, f, d, v, UserFlag(flags));
      var (s1, c) := GetOrCreate(a, s, f, i, UserFlag(flags));
      FootParts(a, s.mem, f, d, i);
      SameUnder(a, s.mem, s1.mem, c, d - 1, v);
      MapGrows(a, s1, c, d - 1, v, phys, flags);
      MapKeepsTable(a, s1, c, d - 1, v, phys, flags);
    }
  }

  lemma {:induction false} SameUnder(a: Arch, m: Memory, n: Memory, f: nat, d: Depth, v: U64Value)
    requires Tree(a, m, f, d) && Agree(m, n, Foot(a, m, f, d))
    requires Walk(a, m, f, d, v).Leaf? && Walk(a, m, f, d, v).level == 1
    ensures TableUnder(a, n, f, d, v) == TableUnder(a, m, f, d, v) && Walk(a, n, f, d, v) == Walk(a, m, f, d, v)
    decreases d
  {
    hide Index, IsTable, FrameOf, Present;
    FootParts(a, m, f, d, Index(v, d));
    assert Get(n, f, Index(v, d)) == Get(m, f, Index(v, d));
    if d > 1 {
      SameUnder(a, m, n, Kid(a, m, f, Index(v, d)), d - 1, v);
    }
  }
}

/** All segments of an ELF image and the user stack, mapped by process_run into one address space. */
module LoaderImage {
  import opened Pmm
  import opened PageTable
  import opened PageAddress
  import opened PageOps
  import opened PageRuns
  import opened PhysBytes
  import opened Loader

  const STACK_PAGES: nat := 4

  function StackTop(a: Arch): U64Value {
    if a == X86 then 0x7FFF_FFFF_F000 else 0xF000_0000
  }

  // ---------------------------------------------------------------- what the code computes

  function LoadSegments(a: Arch, s: Phys, root: nat, segs: seq<Segment>, file: seq<Byte>): Phys
    decreases |segs|
  {
    if segs == [] then s else LoadSegments(a, LoadSegment(a, s, root, segs[0], file), root, segs[1..], file)
  }

  /** One turn of the stack loop. The stack's frames are not cleared. */
  function StackPage(a: Arch, s: Phys, root: nat, i: nat): Phys
    requires i < STACK_PAGES
  {
    var (s1, g) := AllocFrame(s);
    MapPage(a, s1, root, Levels(a), StackTop(a) - (i + 1) * PAGE, g * PAGE, 7)
  }

  function MapStack(a: Arch, s: Phys, root: nat, i: nat): Phys
    requires i <= STACK_PAGES
    decreases STACK_PAGES - i
  {
    if i == STACK_PAGES then s else MapStack(a, StackPage(a, s, root, i), root, i + 1)
  }

  function LoadImage(a: Arch, s: Phys, root: nat, segs: seq<Segment>, file: seq<Byte>): Phys {
    MapStack(a, LoadSegments(a, s, root, segs, file), root, 0)
  }

  // ---------------------------------------------------------------- what the program headers ask for

  predicate Covers(seg: Segment, u: U64Value) {
    PageStart(seg) <= u < PageEnd(seg)
  }

  predicate Covered(segs: seq<Segment>, u: U64Value) {
    segs != [] && (Covered(segs[1..], u) || Covers(segs[0], u))
  }

  /** The last segment that has u in its pages: the one whose page replaces all earlier ones. */
  function LastOver(segs: seq<Segment>, u: U64Value): Segment
    requires Covered(segs, u)
  {
    if Covered(segs[1..], u) then LastOver(segs[1..], u) else segs[0]
  }

  function PageCount(va: nat, end: nat): nat {
    if va >= end then 0 else (end - va) / PAGE
  }

  function PageTotal(segs: seq<Segment>): nat {
    if segs == [] then 0 else PageCount(PageStart(segs[0]), PageEnd(segs[0])) + PageTotal(segs[1..])
  }

  /** What a caller checks beforehand: sound headers, no block leaf where a segment goes, and enough frames,
      a new leaf-to-root path for every page at worst. */
  ghost predicate Ready(a: Arch, s: Phys, root: nat, segs: seq<Segment>) {
    && SpaceReady(a, s, root)
    && (forall seg :: seg in segs ==> SegmentOk(a, seg))
    && (forall u :: Covered(segs, u) ==> !Stops(Look(a, s.mem, root, u)))
    && Levels(a) * PageTotal(segs) <= Avail(s)
  }

  // ---------------------------------------------------------------- enough frames

  /** Frames for every page and its path suffice to load a range. */
  lemma {:induction false} RangeEnough(a: Arch, s: Phys, root: nat, va: nat, end: nat, flags: Flags)
    requires SpaceReady(a, s, root) && PresentFlag(flags)
    requires va % PAGE == 0 && end % PAGE == 0 && end <= PAGE * Pages(Levels(a))
    requires forall u: U64Value :: va <= u < end ==> !Stops(Look(a, s.mem, root, u))
    requires Levels(a) * PageCount(va, end) <= Avail(s)
    ensures RangeEnabled(a, s, root, va, end, flags)
    ensures Avail(MapRange(a, s, root, va, end, flags)) + Levels(a) * PageCount(va, end) >= Avail(s)
    decreases end - va
  {
    hide Footprint, Tree, Look, PageOf, Kept, Backed, LoadPage, LoadByte, Sane, Avail, PageEnabled, Stops, PageCount, Granted, SpaceReady, FrameAt;
    if va < end {
      CountStep(va, end);
      Split(Levels(a), 1, PageCount(va + PAGE, end));
      EnoughForOne(a, s, root, va);
      LoadPageFacts(a, s, root, va, flags);
      var s1 := LoadPage(a, s, root, va, flags);
      KeptReady(a, s, s1, root, {PageOf(a, va)});
      forall u: U64Value | va + PAGE <= u < end
        ensures !Stops(Look(a, s1.mem, root, u))
      {
        StillOpen(a, s, s1, root, {PageOf(a, va)}, flags, u);
      }
      RangeEnough(a, s1, root, va + PAGE, end, flags);
    }
  }

  lemma CountStep(va: nat, end: nat)
    requires va % PAGE == 0 && end % PAGE == 0 && va < end
    ensures PageCount(va, end) == 1 + PageCount(va + PAGE, end) && va + PAGE <= end
  {
    var p, q := va / PAGE, end / PAGE;
    assert va == p * PAGE && end == q * PAGE;
    assert (end - va) / PAGE == q - p;
  }

  lemma EnoughForOne(a: Arch, s: Phys, root: nat, va: U64Value)
    requires !Stops(Look(a, s.mem, root, va)) && Levels(a) <= Avail(s)
    ensures PageEnabled(a, s, root, va)
  {
    FewMissing(a, s.mem, root, Levels(a), va);
  }

  /** A page not stopped at before is not stopped at after pages of P were loaded. */
  lemma StillOpen(a: Arch, s: Phys, t: Phys, root: nat, P: set<nat>, flags: Flags, u: U64Value)
    requires !Stops(Look(a, s.mem, root, u)) && Kept(a, s, t, root, P)
    requires PageOf(a, u) in P ==> Granted(a, t, root, u, flags)
    ensures !Stops(Look(a, t.mem, root, u))
  {
    hide Footprint, Look, PageOf, LeafEntry;
  }

  lemma {:induction false} CopyKeepsUsed(a: Arch, s: Phys, root: nat, seg: Segment, file: seq<Byte>, off: nat)
    ensures CopyBytes(a, s, root, seg, file, off).used == s.used
    ensures |CopyBytes(a, s, root, seg, file, off).mem| == |s.mem|
    decreases seg.filesz - off
  {
    hide StoreByte, PhysAddr;
    if off < seg.filesz {
      var pa := PhysAddr(a, s.mem, root, (seg.vaddr + off) % U64);
      CopyKeepsUsed(a, s.(mem := StoreByte(s.mem, pa, ByteAt(file, seg.offset + off))), root, seg, file, off + 1);
    }
  }

  lemma SegmentEnough(a: Arch, s: Phys, root: nat, seg: Segment, file: seq<Byte>)
    requires SpaceReady(a, s, root) && SegmentOk(a, seg)
    requires forall u: U64Value :: Covers(seg, u) ==> !Stops(Look(a, s.mem, root, u))
    requires Levels(a) * PageCount(PageStart(seg), PageEnd(seg)) <= Avail(s)
    ensures RangeEnabled(a, s, root, PageStart(seg), PageEnd(seg), SegmentFlags(seg))
    ensures Avail(LoadSegment(a, s, root, seg, file)) + Levels(a) * PageCount(PageStart(seg), PageEnd(seg)) >= Avail(s)
  {
    hide SpaceReady, PageStart, PageEnd, SegmentFlags, Look, MapRange, CopyBytes;
    SegmentBounds(a, seg);
    FlagsPresent(seg);
    RangeEnough(a, s, root, PageStart(seg), PageEnd(seg), SegmentFlags(seg));
    CopyKeepsUsed(a, MapRange(a, s, root, PageStart(seg), PageEnd(seg), SegmentFlags(seg)), root, seg, file, 0);
  }

  // ---------------------------------------------------------------- the segments, one after the other

  /** u reads the byte of segment seg, with seg's rights, from a frame taken since s0. */
  ghost predicate Holds(a: Arch, s0: Phys, t: Phys, root: nat, file: seq<Byte>, u: U64Value, seg: Segment) {
    && Backed(a, s0, t, root, u) && Granted(a, t, root, u, SegmentFlags(seg))
    && Read(a, t, root, u) == ImageByte(seg, file, u)
  }

  lemma HoldsOne(a: Arch, s0: Phys, t: Phys, root: nat, seg: Segment, file: seq<Byte>, u: U64Value)
    requires SegmentLoaded(a, s0, t, root, seg, file) && Covers(seg, u)
    ensures Holds(a, s0, t, root, file, u, seg)
  {
    hide Look, Footprint, Backed, Granted, Read, PageStart, PageEnd;
  }

  lemma ApartOne(a: Arch, s0: Phys, t: Phys, root: nat, seg: Segment, file: seq<Byte>, u: U64Value, v: U64Value)
    requires SegmentLoaded(a, s0, t, root, seg, file) && Covers(seg, u) && Covers(seg, v) && u / PAGE != v / PAGE
    ensures FrameAt(a, t, root, u) != FrameAt(a, t, root, v)
  {
    hide Look, Footprint, Backed, Granted, Read, PageStart, PageEnd;
  }

  /** What segment seg holds at u survives the loading of other pages. */
  lemma HoldsKept(a: Arch, s0: Phys, t: Phys, z: Phys, root: nat, P: set<nat>, file: seq<Byte>, u: U64Value, seg: Segment)
    requires Holds(a, s0, t, root, file, u, seg) && Kept(a, t, z, root, P) && PageOf(a, u) !in P
    ensures Holds(a, s0, z, root, file, u, seg) && FrameAt(a, z, root, u) == FrameAt(a, t, root, u)
    ensures FrameAt(a, z, root, u) in t.used
  {
    hide Look, Footprint, LeafEntry, PageOf, LoadByte, PhysAddr, ImageByte, Kept, FrameOf;
    BackedKept(a, s0, t, z, root, P, u);
  }

  lemma HoldsSince(a: Arch, s0: Phys, s1: Phys, t: Phys, root: nat, file: seq<Byte>, u: U64Value, seg: Segment)
    requires Holds(a, s1, t, root, file, u, seg) && s0.used <= s1.used
    ensures Holds(a, s0, t, root, file, u, seg) && FrameAt(a, t, root, u) !in s1.used
  {
    hide Look, Footprint, LeafEntry, LoadByte, PhysAddr, ImageByte, FrameOf;
  }

  ghost predicate ImageLoaded(a: Arch, s0: Phys, t: Phys, root: nat, segs: seq<Segment>, file: seq<Byte>) {
    forall u :: Covered(segs, u) ==> Holds(a, s0, t, root, file, u, LastOver(segs, u))
  }

  /** Different pages of the image lie in different frames. */
  ghost predicate PagesApart(a: Arch, t: Phys, root: nat, segs: seq<Segment>) {
    forall u: U64Value, v: U64Value :: Covered(segs, u) && Covered(segs, v) && u / PAGE != v / PAGE ==>
      FrameAt(a, t, root, u) != FrameAt(a, t, root, v)
  }

  function PagesOf(segs: seq<Segment>): set<nat> {
    if segs == [] then {} else SegmentPages(segs[0]) + PagesOf(segs[1..])
  }

  lemma InPages(a: Arch, seg: Segment, u: U64Value)
    requires SegmentOk(a, seg) && u < PAGE * Pages(Levels(a))
    ensures PageOf(a, u) in SegmentPages(seg) <==> Covers(seg, u)
  {
    hide PageStart, PageEnd, PagesIn;
    SegmentBounds(a, seg);
    PageOfInside(a, u);
    InRange(PageStart(seg), PageEnd(seg), u);
  }

  lemma InRange(lo: nat, hi: nat, u: nat)
    requires lo % PAGE == 0 && hi % PAGE == 0
    ensures u / PAGE in PagesIn(lo, hi) <==> lo <= u < hi
  {
    var p, q, k := lo / PAGE, hi / PAGE, u / PAGE;
    assert lo == p * PAGE && hi == q * PAGE && k * PAGE <= u < k * PAGE + PAGE;
    if lo < hi {
      assert (hi - lo) / PAGE == q - p;
    }
  }

  lemma {:induction false} InAllPages(a: Arch, segs: seq<Segment>, u: U64Value)
    requires forall seg :: seg in segs ==> SegmentOk(a, seg)
    ensures Covered(segs, u) ==> u < PAGE * Pages(Levels(a))
    ensures u < PAGE * Pages(Levels(a)) ==> (PageOf(a, u) in PagesOf(segs) <==> Covered(segs, u))
  {
    hide PageOf, SegmentPages, PageStart, PageEnd, Pages;
    if segs != [] {
      assert segs[0] in segs;
      SegmentBounds(a, segs[0]);
      if u < PAGE * Pages(Levels(a)) {
        InPages(a, segs[0], u);
      }
      assert forall seg :: seg in segs[1..] ==> seg in segs;
      InAllPages(a, segs[1..], u);
    }
  }

  /** What one segment needs and gives. */
  lemma FirstSegment(a: Arch, s: Phys, root: nat, segs: seq<Segment>, file: seq<Byte>)
    requires Ready(a, s, root, segs) && segs != []
    ensures SegmentOk(a, segs[0]) && SpaceReady(a, LoadSegment(a, s, root, segs[0], file), root)
    ensures Kept(a, s, LoadSegment(a, s, root, segs[0], file), root, SegmentPages(segs[0]))
    ensures SegmentLoaded(a, s, LoadSegment(a, s, root, segs[0], file), root, segs[0], file)
    ensures Avail(LoadSegment(a, s, root, segs[0], file)) + Levels(a) * PageCount(PageStart(segs[0]), PageEnd(segs[0])) >= Avail(s)
  {
    hide SpaceReady, Look, Footprint, LoadSegment, PageStart, PageEnd, SegmentPages, SegmentLoaded, SegmentFlags,
      SegmentOk, Kept, Avail, PageCount;
    var seg := segs[0];
    assert seg in segs;
    Split(Levels(a), PageCount(PageStart(seg), PageEnd(seg)), PageTotal(segs[1..]));
    assert forall u: U64Value :: Covers(seg, u) ==> Covered(segs, u);
    SegmentEnough(a, s, root, seg, file);
    SegmentBounds(a, seg);
    SegmentFacts(a, s, root, seg, file);
    KeptReady(a, s, LoadSegment(a, s, root, seg, file), root, SegmentPages(seg));
  }

  lemma Split(l: nat, x: nat, y: nat)
    ensures l * (x + y) == l * x + l * y && l * x >= 0 && l * y >= 0
  {
  }

  lemma ReadyStep(a: Arch, s: Phys, root: nat, segs: seq<Segment>, file: seq<Byte>)
    requires Ready(a, s, root, segs) && segs != []
    ensures Ready(a, LoadSegment(a, s, root, segs[0], file), root, segs[1..])
  {
    hide SpaceReady, Look, Footprint, PageOf, LoadSegment, PageStart, PageEnd, SegmentPages, SegmentLoaded, SegmentFlags,
      SegmentOk, Granted, Backed, Read, ImageByte, Kept, Pages, Avail, PageCount, Levels, Stops;
    var seg := segs[0];
    assert seg in segs && forall x :: x in segs[1..] ==> x in segs;
    FirstSegment(a, s, root, segs, file);
    Split(Levels(a), PageCount(PageStart(seg), PageEnd(seg)), PageTotal(segs[1..]));
    var t := LoadSegment(a, s, root, seg, file);
    forall u | Covered(segs[1..], u)
      ensures !Stops(Look(a, t.mem, root, u))
    {
      assert Covered(segs, u);
      InAllPages(a, segs[1..], u);
      InPages(a, seg, u);
      if Covers(seg, u) {
        HoldsOne(a, s, t, root, seg, file, u);
      }
      StillOpen(a, s, t, root, SegmentPages(seg), SegmentFlags(seg), u);
    }
  }

  /** Any list of segments, overlapping or not: every address of their pages reads the byte of the last
      segment over it, with that segment's rights; pages have frames of their own; whatever was in use before
      and is no table of the space is unwritten. */
  lemma {:induction false} SegmentsFacts(a: Arch, s: Phys, root: nat, segs: seq<Segment>, file: seq<Byte>)
    requires Ready(a, s, root, segs)
    ensures var t := LoadSegments(a, s, root, segs, file);
            && Kept(a, s, t, root, PagesOf(segs)) && ImageLoaded(a, s, t, root, segs, file)
            && PagesApart(a, t, root, segs) && Avail(t) + Levels(a) * PageTotal(segs) >= Avail(s)
    decreases |segs|
  {
    hide SpaceReady, Look, Footprint, PageOf, LoadSegment, PageStart, PageEnd, SegmentPages, SegmentLoaded, SegmentFlags,
      SegmentOk, Holds, Kept, Avail, ImageLoaded, PagesApart, Stops, Levels, PageCount;
    if segs == [] {
      NothingLoaded(a, s, root, file);
    } else {
      var seg, rest := segs[0], segs[1..];
      FirstSegment(a, s, root, segs, file);
      ReadyStep(a, s, root, segs, file);
      Split(Levels(a), PageCount(PageStart(seg), PageEnd(seg)), PageTotal(rest));
      var s1 := LoadSegment(a, s, root, seg, file);
      SegmentsFacts(a, s1, root, rest, file);
      var t := LoadSegments(a, s1, root, rest, file);
      KeptTwice(a, s, s1, t, root, SegmentPages(seg), PagesOf(rest));
      JoinLoaded(a, s, s1, t, root, segs, file);
    }
  }

  lemma NothingLoaded(a: Arch, s: Phys, root: nat, file: seq<Byte>)
    requires SpaceReady(a, s, root)
    ensures Kept(a, s, s, root, {}) && ImageLoaded(a, s, s, root, [], file) && PagesApart(a, s, root, [])
  {
    KeptNothing(a, s, root);
  }

  /** Where an address of the pages ends up: with a later segment, or still with the first one. */
  lemma PlaceLoaded(a: Arch, s: Phys, s1: Phys, t: Phys, root: nat, segs: seq<Segment>, file: seq<Byte>, u: U64Value)
    requires segs != [] && s.used <= s1.used && Covered(segs, u) && forall seg :: seg in segs ==> SegmentOk(a, seg)
    requires SegmentLoaded(a, s, s1, root, segs[0], file)
    requires Kept(a, s1, t, root, PagesOf(segs[1..])) && ImageLoaded(a, s1, t, root, segs[1..], file)
    ensures Holds(a, s, t, root, file, u, LastOver(segs, u))
    ensures FrameAt(a, t, root, u) in s1.used <==> !Covered(segs[1..], u)
    ensures !Covered(segs[1..], u) ==> Covers(segs[0], u) && FrameAt(a, t, root, u) == FrameAt(a, s1, root, u)
  {
    hide Look, Footprint, PageOf, PageStart, PageEnd, SegmentLoaded, SegmentOk, Holds, Kept, FrameAt;
    assert forall seg :: seg in segs[1..] ==> seg in segs;
    if Covered(segs[1..], u) {
      assert Holds(a, s1, t, root, file, u, LastOver(segs[1..], u));
      HoldsSince(a, s, s1, t, root, file, u, LastOver(segs, u));
    } else {
      HoldsOne(a, s, s1, root, segs[0], file, u);
      InAllPages(a, segs, u);
      InAllPages(a, segs[1..], u);
      HoldsKept(a, s, s1, t, root, PagesOf(segs[1..]), file, u, segs[0]);
    }
  }

  lemma JoinLoaded(a: Arch, s: Phys, s1: Phys, t: Phys, root: nat, segs: seq<Segment>, file: seq<Byte>)
    requires segs != [] && forall seg :: seg in segs ==> SegmentOk(a, seg)
    requires Kept(a, s, s1, root, SegmentPages(segs[0])) && SegmentLoaded(a, s, s1, root, segs[0], file)
    requires Kept(a, s1, t, root, PagesOf(segs[1..])) && ImageLoaded(a, s1, t, root, segs[1..], file)
    requires PagesApart(a, t, root, segs[1..])
    ensures ImageLoaded(a, s, t, root, segs, file) && PagesApart(a, t, root, segs)
  {
    hide Look, Footprint, PageOf, PageStart, PageEnd, SegmentLoaded, SegmentOk, Holds, Kept, FrameAt, SegmentPages;
    KeptReady(a, s, s1, root, SegmentPages(segs[0]));
    forall u | Covered(segs, u)
      ensures Holds(a, s, t, root, file, u, LastOver(segs, u))
    {
      PlaceLoaded(a, s, s1, t, root, segs, file, u);
    }
    forall u: U64Value, v: U64Value | Covered(segs, u) && Covered(segs, v) && u / PAGE != v / PAGE
      ensures FrameAt(a, t, root, u) != FrameAt(a, t, root, v)
    {
      PlaceLoaded(a, s, s1, t, root, segs, file, u);
      PlaceLoaded(a, s, s1, t, root, segs, file, v);
      if !Covered(segs[1..], u) && !Covered(segs[1..], v) {
        ApartOne(a, s, s1, root, segs[0], file, u, v);
      }
    }
  }

  // ---------------------------------------------------------------- the stack

  function StackLow(a: Arch): nat {
    StackTop(a) - STACK_PAGES * PAGE
  }

  /** The page the i-th turn maps; turns go downwards. */
  function StackVa(a: Arch, i: nat): U64Value
    requires i < STACK_PAGES
  {
    StackTop(a) - (i + 1) * PAGE
  }

  lemma StackPageFacts(a: Arch, s: Phys, root: nat, i: nat)
    requires i < STACK_PAGES && SpaceReady(a, s, root) && PageEnabled(a, s, root, StackVa(a, i))
    ensures var t := StackPage(a, s, root, i);
            && Kept(a, s, t, root, {PageOf(a, StackVa(a, i))}) && Avail(t) + Levels(a) >= Avail(s)
            && forall u :: PageOf(a, u) == PageOf(a, StackVa(a, i)) ==>
                 Backed(a, s, t, root, u) && Granted(a, t, root, u, 7)
                 && FrameAt(a, t, root, u) == FrameAt(a, t, root, StackVa(a, i))
  {
    hide Footprint, Tree, Look, MapPage, LeafEntry, FrameOf, PageOf, AllocFrame, Free;
    AllocFacts(s);
    var (s1, g) := AllocFrame(s);
    MapFresh(a, s, s1, g, root, StackVa(a, i), 7);
    FrameFits(a, g, 7);
  }

  /** The turns from i on have given every address of [StackLow, hi) a writable user page of its own. */
  ghost predicate StackMapped(a: Arch, s0: Phys, t: Phys, root: nat, hi: nat) {
    AllBacked(a, s0, t, root, StackLow(a), hi) && AllGranted(a, t, root, StackLow(a), hi, 7)
  }

  lemma StackRange(a: Arch, i: nat)
    requires i < STACK_PAGES
    ensures var va := StackVa(a, i);
            && va % PAGE == 0 && va + PAGE == StackTop(a) - i * PAGE && StackLow(a) <= va
            && StackLow(a) % PAGE == 0 && StackTop(a) <= PAGE * Pages(Levels(a))
            && PagesIn(StackLow(a), va + PAGE) == {va / PAGE} + PagesIn(StackLow(a), va)
            && va / PAGE !in PagesIn(StackLow(a), va) && PageOf(a, va) == va / PAGE
  {
    hide PageOf, PagesIn;
    var n := if a == X86 then 0x7_FFFF_FFFB else 0xE_FFFC;
    assert StackLow(a) == n * PAGE && StackVa(a, i) == (n + 3 - i) * PAGE;
    PagesUp(n, n + 3 - i);
    PageOfInside(a, StackVa(a, i));
  }

  lemma PagesUp(p: nat, q: nat)
    requires p <= q
    ensures PagesIn(p * PAGE, q * PAGE + PAGE) == PagesIn(p * PAGE, q * PAGE) + {q * PAGE / PAGE}
    ensures q * PAGE / PAGE !in PagesIn(p * PAGE, q * PAGE)
  {
    assert (q * PAGE + PAGE - p * PAGE) / PAGE == q + 1 - p && (q * PAGE - p * PAGE) / PAGE == q - p;
  }

  /** An address of the i-th stack page keeps it through the later turns, which map other pages. */
  lemma StackPlace(a: Arch, s: Phys, s1: Phys, t: Phys, root: nat, i: nat, u: U64Value)
    requires i < STACK_PAGES && StackLow(a) <= u < StackVa(a, i) + PAGE && s.used <= s1.used
    requires forall w :: PageOf(a, w) == PageOf(a, StackVa(a, i)) ==>
                 Backed(a, s, s1, root, w) && Granted(a, s1, root, w, 7)
                 && FrameAt(a, s1, root, w) == FrameAt(a, s1, root, StackVa(a, i))
    requires Kept(a, s1, t, root, PagesIn(StackLow(a), StackVa(a, i))) && StackMapped(a, s1, t, root, StackVa(a, i))
    ensures Backed(a, s, t, root, u) && Granted(a, t, root, u, 7)
    ensures FrameAt(a, t, root, u) in s1.used <==> u >= StackVa(a, i)
  {
    hide Footprint, Look, PageOf, FrameOf, Kept, PagesIn, LeafEntry, OwnFrames, StackVa, StackLow, Pages;
    StackRange(a, i);
    PageOfInside(a, u);
    if u >= StackVa(a, i) {
      SamePageNumber(StackVa(a, i), u);
      BackedKept(a, s, s1, t, root, PagesIn(StackLow(a), StackVa(a, i)), u);
    } else {
      assert Backed(a, s1, t, root, u) && Granted(a, t, root, u, 7);
    }
  }

  lemma StackJoin(a: Arch, s: Phys, s1: Phys, t: Phys, root: nat, i: nat)
    requires i < STACK_PAGES && s.used <= s1.used
    requires forall w :: PageOf(a, w) == PageOf(a, StackVa(a, i)) ==>
                 Backed(a, s, s1, root, w) && Granted(a, s1, root, w, 7)
                 && FrameAt(a, s1, root, w) == FrameAt(a, s1, root, StackVa(a, i))
    requires Kept(a, s1, t, root, PagesIn(StackLow(a), StackVa(a, i))) && StackMapped(a, s1, t, root, StackVa(a, i))
    ensures StackMapped(a, s, t, root, StackVa(a, i) + PAGE)
  {
    hide Footprint, Look, PageOf, Kept, PagesIn, Backed, Granted, FrameAt, StackVa, StackLow, Pages;
    StackRange(a, i);
    var va := StackVa(a, i);
    forall u: U64Value | StackLow(a) <= u < va + PAGE
      ensures Backed(a, s, t, root, u) && Granted(a, t, root, u, 7)
      ensures FrameAt(a, t, root, u) in s1.used <==> u >= va
    {
      StackPlace(a, s, s1, t, root, i, u);
    }
    forall u: U64Value, v: U64Value | StackLow(a) <= u < va + PAGE && StackLow(a) <= v < va + PAGE && u / PAGE != v / PAGE
      ensures FrameAt(a, t, root, u) != FrameAt(a, t, root, v)
    {
      if u >= va && v >= va {
        SamePageNumber(va, u);
        SamePageNumber(va, v);
      }
    }
  }

  ghost predicate StackReady(a: Arch, s: Phys, root: nat, i: nat)
    requires i <= STACK_PAGES
  {
    && SpaceReady(a, s, root) && Levels(a) * (STACK_PAGES - i) <= Avail(s)
    && forall j :: i <= j < STACK_PAGES ==> !Stops(Look(a, s.mem, root, StackVa(a, j)))
  }

  lemma StackReadyStep(a: Arch, s: Phys, t: Phys, root: nat, i: nat)
    requires i < STACK_PAGES && StackReady(a, s, root, i) && Kept(a, s, t, root, {PageOf(a, StackVa(a, i))})
    requires Avail(t) + Levels(a) >= Avail(s)
    ensures StackReady(a, t, root, i + 1)
  {
    hide Footprint, Look, SpaceReady, Avail, Stops, StackLow, Pages;
    KeptReady(a, s, t, root, {PageOf(a, StackVa(a, i))});
    Split(Levels(a), STACK_PAGES - i - 1, 1);
    forall j | i + 1 <= j < STACK_PAGES
      ensures !Stops(Look(a, t.mem, root, StackVa(a, j)))
    {
      StackRange(a, i);
      StackRange(a, j);
      StackVasApart(a, i, j);
    }
  }

  lemma StackVasApart(a: Arch, i: nat, j: nat)
    requires i < j < STACK_PAGES
    ensures StackVa(a, i) / PAGE != StackVa(a, j) / PAGE
  {
  }

  lemma {:induction false} MapStackFacts(a: Arch, s: Phys, root: nat, i: nat)
    requires i <= STACK_PAGES && StackReady(a, s, root, i)
    ensures var t := MapStack(a, s, root, i);
            && Kept(a, s, t, root, PagesIn(StackLow(a), StackTop(a) - i * PAGE))
            && StackMapped(a, s, t, root, StackTop(a) - i * PAGE)
            && Avail(t) + Levels(a) * (STACK_PAGES - i) >= Avail(s)
    decreases STACK_PAGES - i
  {
    hide Footprint, Look, PageOf, Kept, PagesIn, Backed, Granted, FrameAt, StackLow, Pages, SpaceReady, Avail, StackPage,
      Stops, Levels, StackVa;
    if i == STACK_PAGES {
      StackEmpty(a, s, root);
    } else {
      EnoughForStack(a, s, root, i);
      StackPageFacts(a, s, root, i);
      StackRange(a, i);
      var s1 := StackPage(a, s, root, i);
      KeptReady(a, s, s1, root, {PageOf(a, StackVa(a, i))});
      StackReadyStep(a, s, s1, root, i);
      MapStackFacts(a, s1, root, i + 1);
      var t := MapStack(a, s1, root, i + 1);
      StackJoin(a, s, s1, t, root, i);
      KeptTwice(a, s, s1, t, root, {PageOf(a, StackVa(a, i))}, PagesIn(StackLow(a), StackVa(a, i)));
      Split(Levels(a), STACK_PAGES - i - 1, 1);
    }
  }

  lemma EnoughForStack(a: Arch, s: Phys, root: nat, i: nat)
    requires i < STACK_PAGES && StackReady(a, s, root, i)
    ensures PageEnabled(a, s, root, StackVa(a, i))
  {
    hide Footprint, Look, Missing, Avail, Stops;
    Split(Levels(a), STACK_PAGES - i - 1, 1);
    FewMissing(a, s.mem, root, Levels(a), StackVa(a, i));
  }

  lemma StackEmpty(a: Arch, s: Phys, root: nat)
    requires SpaceReady(a, s, root)
    ensures Kept(a, s, s, root, PagesIn(StackLow(a), StackTop(a) - STACK_PAGES * PAGE))
    ensures StackMapped(a, s, s, root, StackTop(a) - STACK_PAGES * PAGE)
  {
    KeptNothing(a, s, root);
    NoPages(a, s, root, StackLow(a), StackTop(a) - STACK_PAGES * PAGE);
  }

  // ---------------------------------------------------------------- the whole image

  predicate InStack(a: Arch, u: U64Value) {
    StackLow(a) <= u < StackTop(a)
  }

  /** What a caller checks before loading: sound headers away from the stack, no block leaf in the way, and
      enough frames. Segments may overlap each other. */
  ghost predicate ImageReady(a: Arch, s: Phys, root: nat, segs: seq<Segment>) {
    && SpaceReady(a, s, root)
    && (forall seg :: seg in segs ==> SegmentOk(a, seg))
    && (forall u :: Covered(segs, u) ==> !InStack(a, u))
    && (forall u :: Covered(segs, u) || InStack(a, u) ==> !Stops(Look(a, s.mem, root, u)))
    && Levels(a) * (PageTotal(segs) + STACK_PAGES) <= Avail(s)
  }

  /** No stack page shares a frame with the image. */
  ghost predicate StackApart(a: Arch, t: Phys, root: nat, segs: seq<Segment>) {
    forall u: U64Value, v: U64Value :: Covered(segs, u) && InStack(a, v) ==>
      FrameAt(a, t, root, u) != FrameAt(a, t, root, v)
  }

  function AllPages(a: Arch, segs: seq<Segment>): set<nat> {
    PagesOf(segs) + PagesIn(StackLow(a), StackTop(a))
  }

  lemma AwayFromStack(a: Arch, segs: seq<Segment>, u: U64Value)
    requires forall seg :: seg in segs ==> SegmentOk(a, seg)
    requires forall w :: Covered(segs, w) ==> !InStack(a, w)
    ensures Covered(segs, u) ==> PageOf(a, u) !in PagesIn(StackLow(a), StackTop(a))
    ensures InStack(a, u) ==> PageOf(a, u) !in PagesOf(segs)
  {
    hide PageOf, PagesIn, StackLow, Pages, SegmentOk, Covered, Levels, PagesOf, StackVa;
    InAllPages(a, segs, u);
    StackRange(a, 0);
    InRange(StackLow(a), StackTop(a), u);
    if u < PAGE * Pages(Levels(a)) {
      PageOfInside(a, u);
    }
  }

  lemma VaInStack(a: Arch, j: nat)
    requires j < STACK_PAGES
    ensures InStack(a, StackVa(a, j))
  {
  }

  lemma ThenStack(a: Arch, s: Phys, t: Phys, root: nat, segs: seq<Segment>)
    requires ImageReady(a, s, root, segs) && Kept(a, s, t, root, PagesOf(segs))
    requires Avail(t) + Levels(a) * PageTotal(segs) >= Avail(s)
    ensures StackReady(a, t, root, 0)
  {
    hide SpaceReady, Look, Footprint, PageOf, Avail, Levels, StackVa, InStack;
    KeptReady(a, s, t, root, PagesOf(segs));
    Split(Levels(a), PageTotal(segs), STACK_PAGES);
    forall j | 0 <= j < STACK_PAGES
      ensures !Stops(Look(a, t.mem, root, StackVa(a, j)))
    {
      VaInStack(a, j);
      AwayFromStack(a, segs, StackVa(a, j));
    }
  }

  lemma ReadyForSegments(a: Arch, s: Phys, root: nat, segs: seq<Segment>)
    requires ImageReady(a, s, root, segs)
    ensures Ready(a, s, root, segs)
  {
    hide SpaceReady, Look, Avail, Levels, InStack, SegmentOk, Stops, Covered;
    Split(Levels(a), PageTotal(segs), STACK_PAGES);
  }

  /** The image under the stack: as the segments left it. */
  lemma UnderStack(a: Arch, s: Phys, s1: Phys, t: Phys, root: nat, segs: seq<Segment>, file: seq<Byte>, u: U64Value)
    requires forall seg :: seg in segs ==> SegmentOk(a, seg)
    requires forall w :: Covered(segs, w) ==> !InStack(a, w)
    requires ImageLoaded(a, s, s1, root, segs, file) && Kept(a, s1, t, root, PagesIn(StackLow(a), StackTop(a)))
    requires Covered(segs, u)
    ensures Holds(a, s, t, root, file, u, LastOver(segs, u))
    ensures FrameAt(a, t, root, u) == FrameAt(a, s1, root, u) && FrameAt(a, t, root, u) in s1.used
  {
    hide Holds, Kept, Look, PageOf, PagesIn, StackLow, FrameAt;
    AwayFromStack(a, segs, u);
    HoldsKept(a, s, s1, t, root, PagesIn(StackLow(a), StackTop(a)), file, u, LastOver(segs, u));
  }

  lemma StackFrame(a: Arch, s: Phys, t: Phys, root: nat, v: U64Value)
    requires StackMapped(a, s, t, root, StackTop(a)) && InStack(a, v)
    ensures FrameAt(a, t, root, v) !in s.used
  {
    hide Look, Footprint, OwnFrames, LeafEntry, FrameOf;
    assert Backed(a, s, t, root, v);
  }

  lemma StackSince(a: Arch, s: Phys, s1: Phys, t: Phys, root: nat)
    requires StackMapped(a, s1, t, root, StackTop(a)) && s.used <= s1.used
    ensures StackMapped(a, s, t, root, StackTop(a))
  {
    hide Look, Footprint, OwnFrames, Granted;
    forall u: U64Value | StackLow(a) <= u < StackTop(a)
      ensures Backed(a, s, t, root, u)
    {
      assert Backed(a, s1, t, root, u);
    }
  }

  /** The loader is right on every list of segments: each address of the image reads, through the new space's
      translation, the byte of the last segment over its page, with that segment's rights; the four stack pages
      are mapped writable; image and stack pages all have frames of their own, none of them a page table; and
      no frame that was in use before is written, except tables of this space. */
  lemma LoadImageFacts(a: Arch, s: Phys, root: nat, segs: seq<Segment>, file: seq<Byte>)
    requires ImageReady(a, s, root, segs)
    ensures var t := LoadImage(a, s, root, segs, file);
            && Kept(a, s, t, root, AllPages(a, segs)) && ImageLoaded(a, s, t, root, segs, file)
            && PagesApart(a, t, root, segs) && StackMapped(a, s, t, root, StackTop(a)) && StackApart(a, t, root, segs)
  {
    hide SpaceReady, Look, Footprint, Holds, Kept, PagesIn, StackLow, FrameAt, Avail, Levels, StackMapped, InStack,
      LoadSegments, MapStack, SegmentOk, Stops, Ready;
    ReadyForSegments(a, s, root, segs);
    SegmentsFacts(a, s, root, segs, file);
    var s1 := LoadSegments(a, s, root, segs, file);
    KeptReady(a, s, s1, root, PagesOf(segs));
    ThenStack(a, s, s1, root, segs);
    MapStackFacts(a, s1, root, 0);
    var t := MapStack(a, s1, root, 0);
    KeptTwice(a, s, s1, t, root, PagesOf(segs), PagesIn(StackLow(a), StackTop(a)));
    forall u | Covered(segs, u)
      ensures Holds(a, s, t, root, file, u, LastOver(segs, u))
      ensures FrameAt(a, t, root, u) == FrameAt(a, s1, root, u) && FrameAt(a, t, root, u) in s1.used
    {
      UnderStack(a, s, s1, t, root, segs, file, u);
    }
    forall v | InStack(a, v)
      ensures FrameAt(a, t, root, v) !in s1.used
    {
      StackFrame(a, s1, t, root, v);
    }
    StackSince(a, s, s1, t, root);
  }

  // ---------------------------------------------------------------- when every segment reads its own bytes

  predicate InMemory(seg: Segment, u: U64Value) {
    seg.vaddr <= u < seg.vaddr + seg.memsz
  }

  /** The PT_LOAD promise: every segment's memory reads its file bytes, then zeros. */
  ghost predicate ImageCorrect(a: Arch, t: Phys, root: nat, segs: seq<Segment>, file: seq<Byte>) {
    forall i: nat, u :: i < |segs| && InMemory(segs[i], u) ==> Read(a, t, root, u) == ImageByte(segs[i], file, u)
  }

  /** Whenever a later segment has a page of segment i, it happens to bring the same bytes there. */
  ghost predicate NothingLost(a: Arch, segs: seq<Segment>, file: seq<Byte>)
    requires forall seg :: seg in segs ==> SegmentOk(a, seg)
  {
    forall i: nat, u :: i < |segs| && InMemory(segs[i], u) ==>
      Covered(segs, u) && ImageByte(segs[i], file, u) == ImageByte(LastOver(segs, u), file, u)
  }

  /** No two segments have a page in common. */
  ghost predicate PagesDisjoint(segs: seq<Segment>) {
    forall i: nat, j: nat, u :: i < |segs| && j < |segs| && Covers(segs[i], u) && Covers(segs[j], u) ==> i == j
  }

  lemma {:induction false} LastIsAmong(segs: seq<Segment>, u: U64Value)
    requires Covered(segs, u)
    ensures exists j: nat :: j < |segs| && segs[j] == LastOver(segs, u) && Covers(segs[j], u)
  {
    if Covered(segs[1..], u) {
      LastIsAmong(segs[1..], u);
      var j: nat :| j < |segs[1..]| && segs[1..][j] == LastOver(segs[1..], u) && Covers(segs[1..][j], u);
      assert segs[j + 1] == LastOver(segs, u);
    }
  }

  lemma {:induction false} CoverIsCovered(segs: seq<Segment>, i: nat, u: U64Value)
    requires i < |segs| && Covers(segs[i], u)
    ensures Covered(segs, u)
  {
    if i > 0 {
      CoverIsCovered(segs[1..], i - 1, u);
    }
  }

  lemma MemoryIsCovered(a: Arch, segs: seq<Segment>, i: nat, u: U64Value)
    requires i < |segs| && SegmentOk(a, segs[i]) && InMemory(segs[i], u)
    ensures Covered(segs, u) && Covers(segs[i], u)
  {
    hide PageStart, PageEnd;
    SegmentBounds(a, segs[i]);
    CoverIsCovered(segs, i, u);
  }

  lemma DisjointLosesNothing(a: Arch, segs: seq<Segment>, file: seq<Byte>)
    requires PagesDisjoint(segs) && forall seg :: seg in segs ==> SegmentOk(a, seg)
    ensures NothingLost(a, segs, file)
  {
    hide PageStart, PageEnd, SegmentOk, ImageByte;
    forall i: nat, u | i < |segs| && InMemory(segs[i], u)
      ensures Covered(segs, u) && LastOver(segs, u) == segs[i]
    {
      MemoryIsCovered(a, segs, i, u);
      LastIsAmong(segs, u);
    }
  }

  /** After loading, every segment reads as its program header promises exactly when no page it shares with a
      later segment changes its bytes; that is so for segments that share no page. */
  lemma ImageCorrectIff(a: Arch, s: Phys, root: nat, segs: seq<Segment>, file: seq<Byte>)
    requires ImageReady(a, s, root, segs)
    ensures ImageCorrect(a, LoadImage(a, s, root, segs, file), root, segs, file) <==> NothingLost(a, segs, file)
    ensures PagesDisjoint(segs) ==> ImageCorrect(a, LoadImage(a, s, root, segs, file), root, segs, file)
  {
    hide SpaceReady, Look, Footprint, Kept, PageStart, PageEnd, StackMapped, InStack, InMemory, Backed, Granted, Read,
      LoadImage, SegmentOk, Stops, ImageByte, PagesApart, StackApart, PagesDisjoint;
    LoadImageFacts(a, s, root, segs, file);
    var t := LoadImage(a, s, root, segs, file);
    forall i: nat, u | i < |segs| && InMemory(segs[i], u)
      ensures Covered(segs, u) && Read(a, t, root, u) == ImageByte(LastOver(segs, u), file, u)
    {
      MemoryIsCovered(a, segs, i, u);
      assert Holds(a, s, t, root, file, u, LastOver(segs, u));
    }
    if PagesDisjoint(segs) {
      DisjointLosesNothing(a, segs, file);
    }
  }

  /** A page of the image lets user code in, and lets it write exactly when the last segment over it is
      writable: by the W and U bits on x86_64, by AP[2:1] on AArch64. */
  lemma ImageRights(a: Arch, s0: Phys, t: Phys, root: nat, segs: seq<Segment>, file: seq<Byte>, u: U64Value)
    requires ImageLoaded(a, s0, t, root, segs, file) && Covered(segs, u)
    ensures var h := Look(a, t.mem, root, u);
            h.Leaf? && h.level == 1
            && match a
               case X86 => Bit2(h.word) && (Bit1(h.word) <==> LastOver(segs, u).writable)
               case A64 => h.word.low / 0x40 % 2 == 1 && (h.word.low / 0x80 % 2 == 0 <==> LastOver(segs, u).writable)
  {
    hide Look, Backed, Read, ImageByte, Covered, LastOver;
    assert Holds(a, s0, t, root, file, u, LastOver(segs, u));
    LeafEntryFacts(a, FrameAt(a, t, root, u) * PAGE, SegmentFlags(LastOver(segs, u)));
  }

  // ---------------------------------------------------------------- frames are only taken

  lemma AllocTakes(s: Phys)
    ensures s.used <= AllocFrame(s).0.used
  {
    hide FirstRun;
  }

  lemma {:induction false} RangeTakes(a: Arch, s: Phys, root: nat, va: nat, end: nat, flags: Flags)
    requires end <= U64
    ensures s.used <= MapRange(a, s, root, va, end, flags).used
    decreases end - va
  {
    hide AllocFrame, ZeroBytes, MapPage;
    if va < end {
      AllocTakes(s);
      var (s1, g) := AllocFrame(s);
      MapTakes(a, s1.(mem := ZeroBytes(s1.mem, g, 0)), root, Levels(a), va, g * PAGE, flags);
      RangeTakes(a, LoadPage(a, s, root, va, flags), root, va + PAGE, end, flags);
    }
  }

  lemma {:induction false} SegmentsTake(a: Arch, s: Phys, root: nat, segs: seq<Segment>, file: seq<Byte>)
    ensures s.used <= LoadSegments(a, s, root, segs, file).used
    decreases |segs|
  {
    hide MapRange, CopyBytes, PageStart, PageEnd, SegmentFlags;
    if segs != [] {
      var m := MapRange(a, s, root, PageStart(segs[0]), PageEnd(segs[0]), SegmentFlags(segs[0]));
      RangeTakes(a, s, root, PageStart(segs[0]), PageEnd(segs[0]), SegmentFlags(segs[0]));
      CopyKeepsUsed(a, m, root, segs[0], file, 0);
      SegmentsTake(a, LoadSegment(a, s, root, segs[0], file), root, segs[1..], file);
    }
  }

  lemma {:induction false} StackTakes(a: Arch, s: Phys, root: nat, i: nat)
    requires i <= STACK_PAGES
    ensures s.used <= MapStack(a, s, root, i).used
    decreases STACK_PAGES - i
  {
    hide AllocFrame, MapPage;
    if i < STACK_PAGES {
      AllocTakes(s);
      var (s1, g) := AllocFrame(s);
      MapTakes(a, s1, root, Levels(a), StackTop(a) - (i + 1) * PAGE, g * PAGE, 7);
      StackTakes(a, StackPage(a, s, root, i), root, i + 1);
    }
  }

  /** With frames enough or not, loading an image gives no frame back. */
  lemma LoadTakes(a: Arch, s: Phys, root: nat, segs: seq<Segment>, file: seq<Byte>)
    ensures s.used <= LoadImage(a, s, root, segs, file).used
  {
    hide LoadSegments, MapStack;
    SegmentsTake(a, s, root, segs, file);
    StackTakes(a, LoadSegments(a, s, root, segs, file), root, 0);
  }
}

/** The ELF loader of process_run, both architectures: pages allocated, zeroed, mapped and filled through the
    new space's own translation. */
module Loader {
  import opened Arith
  import opened Pmm
  import opened PageTable
  import opened PageAddress
  import opened PageTree
  import opened PageOps
  import opened PageRuns
  import opened PhysBytes

  const PAGE: nat := 4096

  /** A PT_LOAD program header. */
  datatype Segment = Segment(vaddr: U64Value, offset: U64Value, filesz: U64Value, memsz: U64Value, writable: bool)

  function ByteAt(file: seq<Byte>, k: nat): Byte {
    if k < |file| then file[k] else 0
  }

  // ---------------------------------------------------------------- what the code computes

  /** The loop that clears a frame byte by byte. */
  function ZeroBytes(m: Memory, f: nat, b: nat): (r: Memory)
    requires b <= PAGE
    ensures |r| == |m|
    decreases PAGE - b
  {
    if b == PAGE then m else ZeroBytes(StoreByte(m, f * PAGE + b, 0), f, b + 1)
  }

  function PageStart(seg: Segment): U64Value {
    seg.vaddr / PAGE * PAGE
  }

  /** ALIGN_UP(p_vaddr + p_memsz, PAGE_SIZE), in 64-bit arithmetic. */
  function PageEnd(seg: Segment): U64Value {
    ((seg.vaddr + seg.memsz) % U64 + PAGE - 1) % U64 / PAGE * PAGE
  }

  function SegmentFlags(seg: Segment): Flags {
    if seg.writable then 7 else 5
  }

  /** One turn of the mapping loop: a fresh zeroed frame at va. */
  function LoadPage(a: Arch, s: Phys, root: nat, va: U64Value, flags: Flags): Phys {
    var (s1, g) := AllocFrame(s);
    MapPage(a, s1.(mem := ZeroBytes(s1.mem, g, 0)), root, Levels(a), va, g * PAGE, flags)
  }

  function MapRange(a: Arch, s: Phys, root: nat, va: nat, end: nat, flags: Flags): Phys
    requires end <= U64
    decreases end - va
  {
    if va >= end then s else MapRange(a, LoadPage(a, s, root, va, flags), root, va + PAGE, end, flags)
  }

  /** The physical address vmm_translate gives. */
  function PhysAddr(a: Arch, m: Memory, root: nat, u: U64Value): nat {
    Translate(a, Look(a, m, root, u), u)
  }

  /** The copying loop, from byte off of the segment on. */
  function CopyBytes(a: Arch, s: Phys, root: nat, seg: Segment, file: seq<Byte>, off: nat): Phys
    decreases seg.filesz - off
  {
    if off >= seg.filesz then s
    else
      var pa := PhysAddr(a, s.mem, root, (seg.vaddr + off) % U64);
      CopyBytes(a, s.(mem := StoreByte(s.mem, pa, ByteAt(file, seg.offset + off))), root, seg, file, off + 1)
  }

  function LoadSegment(a: Arch, s: Phys, root: nat, seg: Segment, file: seq<Byte>): Phys {
    CopyBytes(a, MapRange(a, s, root, PageStart(seg), PageEnd(seg), SegmentFlags(seg)), root, seg, file, 0)
  }

  // ---------------------------------------------------------------- zeroing

  function FrameByte(m: Memory, f: nat, o: nat): Byte {
    LoadByte(m, f * PAGE + o)
  }

  lemma {:induction false} ZeroBytesFacts(m: Memory, f: nat, b: nat)
    requires f < |m| && b <= PAGE
    ensures var n := ZeroBytes(m, f, b);
            && (forall x: nat :: x < |m| && x != f ==> n[x] == m[x])
            && (forall o: nat :: o < PAGE ==> FrameByte(n, f, o) == if o >= b then 0 else FrameByte(m, f, o))
    decreases PAGE - b
  {
    hide StoreByte, LoadByte, FrameByte;
    if b < PAGE {
      ZeroOne(m, f, b);
      var m1 := StoreByte(m, f * PAGE + b, 0);
      ZeroBytesFacts(m1, f, b + 1);
      assert ZeroBytes(m, f, b) == ZeroBytes(m1, f, b + 1);
      assert forall x: nat :: x < |m| && x != f ==> m1[x] == m[x];
    }
  }

  lemma ZeroOne(m: Memory, f: nat, b: nat)
    requires f < |m| && b < PAGE
    ensures var n := StoreByte(m, f * PAGE + b, 0);
            && (forall x: nat :: x < |m| && x != f ==> n[x] == m[x])
            && (forall o: nat :: o < PAGE ==> FrameByte(n, f, o) == if o == b then 0 else FrameByte(m, f, o))
  {
    hide StoreByte, LoadByte;
    var n := StoreByte(m, f * PAGE + b, 0);
    InFrame(f, b);
    LoadStore(m, f * PAGE + b, 0, 0);
    forall o: nat | o < PAGE
      ensures FrameByte(n, f, o) == if o == b then 0 else FrameByte(m, f, o)
    {
      LoadStore(m, f * PAGE + b, 0, f * PAGE + o);
    }
  }

  lemma InFrame(f: nat, o: nat)
    requires o < PAGE
    ensures (f * PAGE + o) / PAGE == f && (f * PAGE + o) % PAGE == o
  {
    QuotientUnique(f * PAGE + o, PAGE, f, o);
  }

  /** Bytes of a frame depend on that frame only. */
  lemma SameByte(m: Memory, n: Memory, pa: nat)
    requires |n| == |m| && pa / PAGE < |m| && n[pa / PAGE] == m[pa / PAGE]
    ensures LoadByte(n, pa) == LoadByte(m, pa)
  {
  }

  // ---------------------------------------------------------------- what loading keeps

  ghost predicate SpaceReady(a: Arch, s: Phys, root: nat) {
    Sane(s) && Tree(a, s.mem, root, Levels(a)) && Footprint(a, s.mem, root) <= s.used
  }

  /** The page number the tables see. */
  function PageOf(a: Arch, u: U64Value): nat {
    u / PAGE % Pages(Levels(a))
  }

  /** From s to t only pages of P were mapped anew, out of fresh frames: every frame in use before that is no
      table of this space is unwritten, and every other page translates as before. */
  ghost predicate Kept(a: Arch, s: Phys, t: Phys, root: nat, P: set<nat>) {
    && SpaceReady(a, t, root) && |t.mem| == |s.mem| && s.used <= t.used
    && Footprint(a, s.mem, root) <= Footprint(a, t.mem, root) <= Footprint(a, s.mem, root) + (t.used - s.used)
    && Agree(s.mem, t.mem, s.used - Footprint(a, s.mem, root))
    && forall u :: PageOf(a, u) !in P ==> Look(a, t.mem, root, u) == Look(a, s.mem, root, u)
  }

  lemma KeptTwice(a: Arch, s: Phys, t: Phys, z: Phys, root: nat, P: set<nat>, Q: set<nat>)
    requires Kept(a, s, t, root, P) && Kept(a, t, z, root, Q)
    ensures Kept(a, s, z, root, P + Q)
  {
    hide Footprint, Look, PageOf;
  }

  /** u is backed by a frame taken since s0 that is no table of the space. */
  ghost predicate Backed(a: Arch, s0: Phys, t: Phys, root: nat, u: U64Value) {
    var h := Look(a, t.mem, root, u);
    h.Leaf? && h.level == 1
    && FrameOf(a, h.word) in t.used && FrameOf(a, h.word) < |t.mem|
    && FrameOf(a, h.word) !in s0.used && FrameOf(a, h.word) !in Footprint(a, t.mem, root)
  }

  lemma BackedAddr(a: Arch, s0: Phys, t: Phys, root: nat, u: U64Value)
    requires Backed(a, s0, t, root, u)
    ensures PhysAddr(a, t.mem, root, u) / PAGE == FrameOf(a, Look(a, t.mem, root, u).word)
    ensures PhysAddr(a, t.mem, root, u) % PAGE == u % PAGE
  {
    InFrame(FrameOf(a, Look(a, t.mem, root, u).word), u % PAGE);
  }

  /** What was backed and loaded stays so while other pages are loaded. */
  lemma BackedKept(a: Arch, s0: Phys, t: Phys, z: Phys, root: nat, P: set<nat>, u: U64Value)
    requires Backed(a, s0, t, root, u) && Kept(a, t, z, root, P) && PageOf(a, u) !in P
    ensures Backed(a, s0, z, root, u) && Look(a, z.mem, root, u) == Look(a, t.mem, root, u)
    ensures PhysAddr(a, z.mem, root, u) == PhysAddr(a, t.mem, root, u)
    ensures LoadByte(z.mem, PhysAddr(a, z.mem, root, u)) == LoadByte(t.mem, PhysAddr(a, t.mem, root, u))
  {
    hide Footprint, Look, PageOf, LoadByte, FrameOf;
    BackedAddr(a, s0, t, root, u);
    SameByte(t.mem, z.mem, PhysAddr(a, t.mem, root, u));
  }

  // ---------------------------------------------------------------- one page

  /** There is a frame for the page and for every table missing on the way to it, and no block in the way. */
  ghost predicate PageEnabled(a: Arch, s: Phys, root: nat, va: U64Value) {
    && !Stops(Look(a, s.mem, root, va))
    && Missing(a, s.mem, root, Levels(a), va) + 1 <= Avail(s)
  }

  lemma FrameFits(a: Arch, g: nat, flags: Flags)
    requires g < 0x10_0000_0000
    ensures g * PAGE < U64 && FrameOf(a, LeafEntry(a, g * PAGE, flags)) == g
  {
    LeafEntryFacts(a, g * PAGE, flags);
    InFrame(g, 0);
  }

  lemma TakeOne(s: Phys, g: nat)
    requires Sane(s) && g !in s.used && g < |s.mem|
    ensures Sane(s.(used := s.used + {g})) && Avail(s.(used := s.used + {g})) == Avail(s) - 1
  {
    TakeCount(s.used, |s.mem|, {g});
  }

  lemma {:induction false} FewMissing(a: Arch, m: Memory, f: nat, d: Depth, v: U64Value)
    ensures Missing(a, m, f, d, v) < d
    decreases d
  {
    var w := Get(m, f, Index(v, d));
    if d > 1 && IsTable(a, w) {
      FewMissing(a, m, FrameOf(a, w), d - 1, v);
    }
  }

  /** Mapping a fresh frame g, whatever it holds, at va: under a block leaf nothing becomes of it. */
  lemma MapAny(a: Arch, s: Phys, s2: Phys, g: nat, root: nat, va: U64Value, flags: Flags)
    requires SpaceReady(a, s, root) && Missing(a, s.mem, root, Levels(a), va) + 1 <= Avail(s) && PresentFlag(flags)
    requires g !in s.used && 0 < g < |s.mem| && |s2.mem| == |s.mem| && s2.used == s.used + {g}
    requires forall x: nat :: x < |s.mem| && x != g ==> s2.mem[x] == s.mem[x]
    ensures g * PAGE < U64
    ensures var t := MapPage(a, s2, root, Levels(a), va, g * PAGE, flags);
            && Kept(a, s, t, root, {PageOf(a, va)}) && t.mem[g] == s2.mem[g] && g in t.used && g !in Footprint(a, t.mem, root)
            && Avail(t) == Avail(s) - Missing(a, s.mem, root, Levels(a), va) - 1 && Avail(t) + Levels(a) >= Avail(s)
            && forall u :: PageOf(a, u) == PageOf(a, va) ==>
                 if Stops(Look(a, s.mem, root, va)) then Look(a, t.mem, root, u) == Look(a, s.mem, root, u)
                 else Look(a, t.mem, root, u) == Leaf(1, LeafEntry(a, g * PAGE, flags)) && Backed(a, s, t, root, u)
  {
    hide Foot, Tree, Walk, MapPage, LeafEntry, FrameOf, Pages, Free, Missing, SamePage, Stops;
    FrameFits(a, g, flags);
    var L := Levels(a);
    Frame(a, s.mem, s2.mem, root, L);
    TakeOne(s, g);
    FrameWalk(a, s.mem, s2.mem, root, L, va);
    MapGrows(a, s2, root, L, va, g * PAGE, flags);
    FewMissing(a, s2.mem, root, L, va);
    var t := MapPage(a, s2, root, L, va, g * PAGE, flags);
    forall u
      ensures PageOf(a, u) != PageOf(a, va) || Stops(Look(a, s.mem, root, va)) ==>
                Look(a, t.mem, root, u) == Look(a, s.mem, root, u)
      ensures PageOf(a, u) == PageOf(a, va) && !Stops(Look(a, s.mem, root, va)) ==>
                Look(a, t.mem, root, u) == Leaf(1, LeafEntry(a, g * PAGE, flags))
    {
      SamePageIff(u, va, L);
      FrameWalk(a, s.mem, s2.mem, root, L, u);
      MapWalks(a, s2, root, L, va, g * PAGE, flags, u);
    }
  }

  lemma MapFresh(a: Arch, s: Phys, s2: Phys, g: nat, root: nat, va: U64Value, flags: Flags)
    requires SpaceReady(a, s, root) && PageEnabled(a, s, root, va) && PresentFlag(flags)
    requires g !in s.used && 0 < g < |s.mem| && |s2.mem| == |s.mem| && s2.used == s.used + {g}
    requires forall x: nat :: x < |s.mem| && x != g ==> s2.mem[x] == s.mem[x]
    ensures g * PAGE < U64
    ensures var t := MapPage(a, s2, root, Levels(a), va, g * PAGE, flags);
            && Kept(a, s, t, root, {PageOf(a, va)}) && t.mem[g] == s2.mem[g] && g in t.used && g !in Footprint(a, t.mem, root)
            && Avail(t) + Levels(a) >= Avail(s)
            && forall u :: PageOf(a, u) == PageOf(a, va) ==>
                 Look(a, t.mem, root, u) == Leaf(1, LeafEntry(a, g * PAGE, flags)) && Backed(a, s, t, root, u)
  {
    hide SpaceReady, Look, MapPage, Missing, Avail, Kept, Backed, LeafEntry, Footprint, PageOf, Stops;
    MapAny(a, s, s2, g, root, va, flags);
  }

  lemma LoadPageFacts(a: Arch, s: Phys, root: nat, va: U64Value, flags: Flags)
    requires SpaceReady(a, s, root) && PageEnabled(a, s, root, va) && PresentFlag(flags)
    ensures var t := LoadPage(a, s, root, va, flags);
            && Kept(a, s, t, root, {PageOf(a, va)}) && Avail(t) + Levels(a) >= Avail(s)
            && forall u :: PageOf(a, u) == PageOf(a, va) ==>
                 Backed(a, s, t, root, u) && FrameAt(a, t, root, u) == FrameAt(a, t, root, va)
                 && Granted(a, t, root, u, flags) && LoadByte(t.mem, PhysAddr(a, t.mem, root, u)) == 0
  {
    hide Footprint, Tree, Look, MapPage, LeafEntry, FrameOf, PageOf, LoadByte, StoreByte, AllocFrame, Free;
    AllocFacts(s);
    var (s1, g) := AllocFrame(s);
    ZeroBytesFacts(s1.mem, g, 0);
    var s2 := s1.(mem := ZeroBytes(s1.mem, g, 0));
    MapFresh(a, s, s2, g, root, va, flags);
    FrameFits(a, g, flags);
    var t := MapPage(a, s2, root, Levels(a), va, g * PAGE, flags);
    forall u | PageOf(a, u) == PageOf(a, va)
      ensures LoadByte(t.mem, PhysAddr(a, t.mem, root, u)) == 0
    {
      BackedAddr(a, s, t, root, u);
      SameByte(s2.mem, t.mem, PhysAddr(a, t.mem, root, u));
      ZeroedByte(s2.mem, g, PhysAddr(a, t.mem, root, u));
    }
  }

  lemma ZeroedByte(m: Memory, g: nat, pa: nat)
    requires pa / PAGE == g && forall o: nat :: o < PAGE ==> FrameByte(m, g, o) == 0
    ensures LoadByte(m, pa) == 0
  {
    hide LoadByte;
    assert pa == g * PAGE + pa % PAGE;
    assert FrameByte(m, g, pa % PAGE) == 0;
  }

  function FrameAt(a: Arch, t: Phys, root: nat, u: U64Value): FrameField {
    var h := Look(a, t.mem, root, u);
    if h.Leaf? then FrameOf(a, h.word) else 0
  }

  /** The leaf for u is the one vmm_map writes for these flags. */
  ghost predicate Granted(a: Arch, t: Phys, root: nat, u: U64Value, flags: Flags) {
    Look(a, t.mem, root, u) == Leaf(1, LeafEntry(a, FrameAt(a, t, root, u) * PAGE, flags))
  }

  ghost predicate AllGranted(a: Arch, t: Phys, root: nat, lo: nat, hi: nat, flags: Flags) {
    forall u: U64Value :: lo <= u < hi ==> Granted(a, t, root, u, flags)
  }

  // ---------------------------------------------------------------- a range of pages

  ghost predicate RangeEnabled(a: Arch, s: Phys, root: nat, va: nat, end: nat, flags: Flags)
    requires end <= U64
    decreases end - va
  {
    va < end ==> PageEnabled(a, s, root, va) && RangeEnabled(a, LoadPage(a, s, root, va, flags), root, va + PAGE, end, flags)
  }

  /** The page numbers of [va, end). */
  function PagesIn(va: nat, end: nat): set<nat>
  {
    if va >= end then {} else Span(va / PAGE, (end - va) / PAGE)
  }

  /** Loaded so that u reads b, from a frame taken since s0. */
  ghost predicate Loaded(a: Arch, s0: Phys, t: Phys, root: nat, u: U64Value, b: Byte) {
    Backed(a, s0, t, root, u) && LoadByte(t.mem, PhysAddr(a, t.mem, root, u)) == b
  }

  /** Different pages of [va, end) have different frames. */
  ghost predicate OwnFrames(a: Arch, t: Phys, root: nat, va: nat, end: nat) {
    forall u: U64Value, v: U64Value :: va <= u < end && va <= v < end && u / PAGE != v / PAGE ==>
      FrameAt(a, t, root, u) != FrameAt(a, t, root, v)
  }

  lemma PageOfInside(a: Arch, u: U64Value)
    requires u < PAGE * Pages(Levels(a))
    ensures PageOf(a, u) == u / PAGE
  {
  }

  lemma {:induction false} MapRangeFacts(a: Arch, s: Phys, root: nat, va: nat, end: nat, flags: Flags)
    requires SpaceReady(a, s, root) && PresentFlag(flags)
    requires va % PAGE == 0 && end % PAGE == 0 && end <= PAGE * Pages(Levels(a))
    requires RangeEnabled(a, s, root, va, end, flags)
    ensures var t := MapRange(a, s, root, va, end, flags);
            && Kept(a, s, t, root, PagesIn(va, end)) && OwnFrames(a, t, root, va, end)
            && AllGranted(a, t, root, va, end, flags)
            && forall u: U64Value :: va <= u < end ==> Loaded(a, s, t, root, u, 0)
    decreases end - va
  {
    hide Footprint, Tree, Look, PageOf, LoadByte, FrameOf, Kept, Loaded, Backed, LoadPage, PageEnabled, PagesIn, OwnFrames,
      Granted;
    if va < end {
      var s1 := LoadPage(a, s, root, va, flags);
      LoadPageFacts(a, s, root, va, flags);
      KeptReady(a, s, s1, root, {PageOf(a, va)});
      MapRangeFacts(a, s1, root, va + PAGE, end, flags);
      var t := MapRange(a, s1, root, va + PAGE, end, flags);
      KeptTwice(a, s, s1, t, root, {PageOf(a, va)}, PagesIn(va + PAGE, end));
      PageOfInside(a, va);
      PagesStep(va, end);
      forall u: U64Value | va <= u < end
        ensures Loaded(a, s, t, root, u, 0) && Granted(a, t, root, u, flags)
        ensures FrameAt(a, t, root, u) in s1.used <==> u < va + PAGE
        ensures u < va + PAGE ==> FrameAt(a, t, root, u) == FrameAt(a, s1, root, va)
      {
        RangePage(a, s, s1, t, root, va, end, flags, u);
      }
      SplitFrames(a, t, root, va, end, s1.used);
    } else {
      KeptNothing(a, s, root);
      NoPages(a, s, root, va, end);
    }
  }

  lemma KeptReady(a: Arch, s: Phys, t: Phys, root: nat, P: set<nat>)
    requires Kept(a, s, t, root, P)
    ensures SpaceReady(a, t, root) && s.used <= t.used
  {
  }

  lemma NoPages(a: Arch, t: Phys, root: nat, va: nat, end: nat)
    requires va >= end
    ensures PagesIn(va, end) == {} && OwnFrames(a, t, root, va, end)
  {
  }

  lemma RangePage(a: Arch, s: Phys, s1: Phys, t: Phys, root: nat, va: nat, end: nat, flags: Flags, u: U64Value)
    requires va % PAGE == 0 && end % PAGE == 0 && va <= u < end <= PAGE * Pages(Levels(a))
    requires s.used <= s1.used && Kept(a, s1, t, root, PagesIn(va + PAGE, end))
    requires forall w :: PageOf(a, w) == PageOf(a, va) ==>
               Backed(a, s, s1, root, w) && FrameAt(a, s1, root, w) == FrameAt(a, s1, root, va)
               && Granted(a, s1, root, w, flags) && LoadByte(s1.mem, PhysAddr(a, s1.mem, root, w)) == 0
    requires AllGranted(a, t, root, va + PAGE, end, flags)
    requires forall w: U64Value :: va + PAGE <= w < end ==> Loaded(a, s1, t, root, w, 0)
    ensures Granted(a, t, root, u, flags)
    ensures Loaded(a, s, t, root, u, 0) && (FrameAt(a, t, root, u) in s1.used <==> u < va + PAGE)
    ensures u < va + PAGE ==> FrameAt(a, t, root, u) == FrameAt(a, s1, root, va)
  {
    hide Footprint, Look, PageOf, LoadByte, FrameOf, Kept, PagesIn, LeafEntry;
    PageOfInside(a, u);
    PageOfInside(a, va);
    PagesStep(va, end);
    if u < va + PAGE {
      SamePageNumber(va, u);
      BackedKept(a, s, s1, t, root, PagesIn(va + PAGE, end), u);
    } else {
      assert Loaded(a, s1, t, root, u, 0);
    }
  }

  lemma KeptNothing(a: Arch, s: Phys, root: nat)
    requires SpaceReady(a, s, root)
    ensures Kept(a, s, s, root, {})
  {
  }

  lemma SamePageNumber(va: nat, u: nat)
    requires va % PAGE == 0 && va <= u < va + PAGE
    ensures u / PAGE == va / PAGE
  {
    assert va == va / PAGE * PAGE;
    QuotientUnique(u, PAGE, va / PAGE, u - va);
  }

  lemma PagesStep(va: nat, end: nat)
    requires va % PAGE == 0 && end % PAGE == 0 && va < end
    ensures PagesIn(va, end) == {va / PAGE} + PagesIn(va + PAGE, end)
    ensures va / PAGE !in PagesIn(va + PAGE, end)
  {
    hide PagesIn;
    Whole(va);
    Whole(end);
    PagesStepAt(va / PAGE, end / PAGE);
  }

  lemma Whole(va: nat)
    requires va % PAGE == 0
    ensures va == va / PAGE * PAGE && va + PAGE == (va / PAGE + 1) * PAGE
  {
  }

  lemma PagesStepAt(p: nat, q: nat)
    requires p < q
    ensures PagesIn(p * PAGE, q * PAGE) == {p} + PagesIn((p + 1) * PAGE, q * PAGE) && p !in PagesIn((p + 1) * PAGE, q * PAGE)
  {
    hide Span;
    PageNumbers(p, q);
    PageNumbers(p + 1, q);
    SpanFront(p, q - p);
  }

  lemma PageNumbers(p: nat, q: nat)
    ensures p * PAGE / PAGE == p && (p < q ==> (q * PAGE - p * PAGE) / PAGE == q - p)
  {
  }

  lemma SpanFront(p: nat, n: nat)
    requires n > 0
    ensures Span(p, n) == {p} + Span(p + 1, n - 1) && p !in Span(p + 1, n - 1)
  {
  }

  lemma SplitFrames(a: Arch, t: Phys, root: nat, va: nat, end: nat, before: set<nat>)
    requires va % PAGE == 0
    requires OwnFrames(a, t, root, va + PAGE, end)
    requires forall u: U64Value :: va <= u < end ==> (FrameAt(a, t, root, u) in before <==> u < va + PAGE)
    ensures OwnFrames(a, t, root, va, end)
  {
    forall u: U64Value, v: U64Value | va <= u < end && va <= v < end && u / PAGE != v / PAGE
      ensures FrameAt(a, t, root, u) != FrameAt(a, t, root, v)
    {
      if u < va + PAGE && v < va + PAGE {
        SamePageNumber(va, u);
        SamePageNumber(va, v);
      }
    }
  }

  // ---------------------------------------------------------------- copying

  /** Only frames taken since s0 that are no tables were written: every walk is as it was. */
  ghost predicate Wrote(a: Arch, s0: Phys, s: Phys, t: Phys, root: nat) {
    && SpaceReady(a, t, root) && t.used == s.used && |t.mem| == |s.mem|
    && Footprint(a, t.mem, root) == Footprint(a, s.mem, root) && Agree(s.mem, t.mem, s0.used)
    && forall u :: Look(a, t.mem, root, u) == Look(a, s.mem, root, u)
  }

  lemma StoreWrites(a: Arch, s0: Phys, s: Phys, root: nat, u: U64Value, b: Byte)
    requires SpaceReady(a, s, root) && Backed(a, s0, s, root, u)
    ensures Wrote(a, s0, s, s.(mem := StoreByte(s.mem, PhysAddr(a, s.mem, root, u), b)), root)
  {
    hide Foot, Tree, Walk, StoreByte, LoadByte, FrameOf;
    var pa := PhysAddr(a, s.mem, root, u);
    var t := s.(mem := StoreByte(s.mem, pa, b));
    BackedAddr(a, s0, s, root, u);
    LoadStore(s.mem, pa, b, 0);
    Frame(a, s.mem, t.mem, root, Levels(a));
    forall v
      ensures Look(a, t.mem, root, v) == Look(a, s.mem, root, v)
    {
      FrameWalk(a, s.mem, t.mem, root, Levels(a), v);
    }
  }

  lemma WroteTwice(a: Arch, s0: Phys, s: Phys, t: Phys, z: Phys, root: nat)
    requires Wrote(a, s0, s, t, root) && Wrote(a, s0, t, z, root)
    ensures Wrote(a, s0, s, z, root)
  {
    hide Footprint, Look;
  }

  /** Different addresses of the range have different physical addresses. */
  lemma AddressesApart(a: Arch, s0: Phys, s: Phys, root: nat, lo: nat, hi: nat, u: U64Value, v: U64Value)
    requires OwnFrames(a, s, root, lo, hi) && lo <= u < hi && lo <= v < hi && u != v
    requires Backed(a, s0, s, root, u) && Backed(a, s0, s, root, v)
    ensures PhysAddr(a, s.mem, root, u) != PhysAddr(a, s.mem, root, v)
  {
    hide Footprint, Look, FrameOf;
    BackedAddr(a, s0, s, root, u);
    BackedAddr(a, s0, s, root, v);
    if u / PAGE == v / PAGE {
      assert u % PAGE != v % PAGE;
    } else {
      assert FrameAt(a, s, root, u) != FrameAt(a, s, root, v);
    }
  }

  ghost predicate AllBacked(a: Arch, s0: Phys, s: Phys, root: nat, lo: nat, hi: nat) {
    OwnFrames(a, s, root, lo, hi) && forall u: U64Value :: lo <= u < hi ==> Backed(a, s0, s, root, u)
  }

  lemma WroteBacked(a: Arch, s0: Phys, s: Phys, t: Phys, root: nat, lo: nat, hi: nat)
    requires AllBacked(a, s0, s, root, lo, hi) && Wrote(a, s0, s, t, root)
    ensures AllBacked(a, s0, t, root, lo, hi)
  {
    hide Footprint, Look;
    forall u: U64Value | lo <= u < hi
      ensures Backed(a, s0, t, root, u)
    {
      assert Backed(a, s0, s, root, u);
    }
    forall u: U64Value, v: U64Value | lo <= u < hi && lo <= v < hi && u / PAGE != v / PAGE
      ensures FrameAt(a, t, root, u) != FrameAt(a, t, root, v)
    {
      assert FrameAt(a, s, root, u) != FrameAt(a, s, root, v);
    }
  }

  /** What address u reads through the space's own translation. */
  function Read(a: Arch, s: Phys, root: nat, u: U64Value): Byte {
    LoadByte(s.mem, PhysAddr(a, s.mem, root, u))
  }

  lemma StoreReads(a: Arch, s0: Phys, s: Phys, root: nat, lo: nat, hi: nat, u: U64Value, b: Byte, v: U64Value)
    requires SpaceReady(a, s, root) && AllBacked(a, s0, s, root, lo, hi) && lo <= u < hi && lo <= v < hi
    ensures var t := s.(mem := StoreByte(s.mem, PhysAddr(a, s.mem, root, u), b));
            Read(a, t, root, v) == if v == u then b else Read(a, s, root, v)
  {
    hide Footprint, Look, StoreByte, LoadByte, FrameOf;
    assert Backed(a, s0, s, root, u) && Backed(a, s0, s, root, v);
    var pa := PhysAddr(a, s.mem, root, u);
    StoreWrites(a, s0, s, root, u, b);
    BackedAddr(a, s0, s, root, u);
    LoadStore(s.mem, pa, b, PhysAddr(a, s.mem, root, v));
    if v != u {
      AddressesApart(a, s0, s, root, lo, hi, u, v);
    }
  }

  predicate InFile(seg: Segment, off: nat, u: U64Value) {
    seg.vaddr + off <= u < seg.vaddr + seg.filesz
  }

  lemma {:induction false} CopyFacts(a: Arch, s0: Phys, s: Phys, root: nat, seg: Segment, file: seq<Byte>, off: nat,
                                     lo: nat, hi: nat)
    requires SpaceReady(a, s, root) && AllBacked(a, s0, s, root, lo, hi)
    requires lo <= seg.vaddr && seg.vaddr + seg.filesz <= hi < U64
    ensures var t := CopyBytes(a, s, root, seg, file, off);
            && Wrote(a, s0, s, t, root) && AllBacked(a, s0, t, root, lo, hi)
            && forall u: U64Value :: lo <= u < hi ==>
                 Read(a, t, root, u) == if InFile(seg, off, u) then ByteAt(file, seg.offset + (u - seg.vaddr)) else Read(a, s, root, u)
    decreases seg.filesz - off
  {
    hide Look, Footprint, StoreByte, Read, PhysAddr, Wrote, AllBacked;
    if off < seg.filesz {
      var u0: U64Value := seg.vaddr + off;
      assert (seg.vaddr + off) % U64 == u0;
      var b := ByteAt(file, seg.offset + off);
      var s1 := s.(mem := StoreByte(s.mem, PhysAddr(a, s.mem, root, u0), b));
      BackedOne(a, s0, s, root, lo, hi, u0);
      StoreWrites(a, s0, s, root, u0, b);
      WroteBacked(a, s0, s, s1, root, lo, hi);
      WroteReady(a, s0, s, s1, root);
      CopyFacts(a, s0, s1, root, seg, file, off + 1, lo, hi);
      WroteTwice(a, s0, s, s1, CopyBytes(a, s1, root, seg, file, off + 1), root);
      forall u: U64Value | lo <= u < hi
        ensures Read(a, s1, root, u) == if u == u0 then b else Read(a, s, root, u)
      {
        StoreReads(a, s0, s, root, lo, hi, u0, b, u);
      }
    } else {
      WroteNothing(a, s0, s, root);
    }
  }

  lemma BackedOne(a: Arch, s0: Phys, s: Phys, root: nat, lo: nat, hi: nat, u: U64Value)
    requires AllBacked(a, s0, s, root, lo, hi) && lo <= u < hi
    ensures Backed(a, s0, s, root, u)
  {
  }

  lemma WroteReady(a: Arch, s0: Phys, s: Phys, t: Phys, root: nat)
    requires Wrote(a, s0, s, t, root)
    ensures SpaceReady(a, t, root)
  {
  }

  lemma WroteNothing(a: Arch, s0: Phys, s: Phys, root: nat)
    requires SpaceReady(a, s, root)
    ensures Wrote(a, s0, s, s, root)
  {
  }

  // ---------------------------------------------------------------- a segment

  /** Addresses the tables can tell apart. */
  ghost predicate RangeOk(a: Arch, seg: Segment) {
    seg.vaddr + seg.memsz + PAGE <= PAGE * Pages(Levels(a))
  }

  /** Besides, the file bytes end within the segment's pages. */
  ghost predicate SegmentOk(a: Arch, seg: Segment) {
    RangeOk(a, seg) && seg.vaddr + seg.filesz <= PageEnd(seg)
  }

  /** Program headers as the gABI has them are more than good enough. */
  lemma HeaderIsOk(a: Arch, seg: Segment)
    requires RangeOk(a, seg) && seg.filesz <= seg.memsz
    ensures SegmentOk(a, seg)
  {
    SegmentRange(a, seg);
  }

  lemma SegmentRange(a: Arch, seg: Segment)
    requires RangeOk(a, seg)
    ensures PageStart(seg) % PAGE == 0 && PageEnd(seg) % PAGE == 0
    ensures PageStart(seg) <= seg.vaddr && seg.vaddr + seg.memsz <= PageEnd(seg) < U64
    ensures PageEnd(seg) <= PAGE * Pages(Levels(a))
  {
    var x := seg.vaddr + seg.memsz;
    assert x % U64 == x && (x + PAGE - 1) % U64 == x + PAGE - 1;
    InFrame(seg.vaddr / PAGE, 0);
    InFrame((x + PAGE - 1) / PAGE, 0);
  }

  lemma SegmentBounds(a: Arch, seg: Segment)
    requires SegmentOk(a, seg)
    ensures RangeOk(a, seg) && seg.vaddr + seg.filesz <= PageEnd(seg)
    ensures PageStart(seg) % PAGE == 0 && PageEnd(seg) % PAGE == 0
    ensures PageStart(seg) <= seg.vaddr && seg.vaddr + seg.memsz <= PageEnd(seg) < U64
    ensures PageEnd(seg) <= PAGE * Pages(Levels(a))
  {
    hide PageStart, PageEnd, Pages;
    SegmentRange(a, seg);
  }

  /** The byte this segment gives u, anywhere in its pages. */
  function ImageByte(seg: Segment, file: seq<Byte>, u: U64Value): Byte
  {
    if InFile(seg, 0, u) then ByteAt(file, seg.offset + (u - seg.vaddr)) else 0
  }

  ghost predicate SegmentLoaded(a: Arch, s0: Phys, t: Phys, root: nat, seg: Segment, file: seq<Byte>) {
    && AllBacked(a, s0, t, root, PageStart(seg), PageEnd(seg))
    && AllGranted(a, t, root, PageStart(seg), PageEnd(seg), SegmentFlags(seg))
    && forall u: U64Value :: PageStart(seg) <= u < PageEnd(seg) ==> Read(a, t, root, u) == ImageByte(seg, file, u)
  }

  function SegmentPages(seg: Segment): set<nat> {
    PagesIn(PageStart(seg), PageEnd(seg))
  }

  lemma FlagsPresent(seg: Segment)
    ensures PresentFlag(SegmentFlags(seg))
  {
  }

  lemma WroteKept(a: Arch, s: Phys, t: Phys, z: Phys, root: nat, P: set<nat>)
    requires Kept(a, s, t, root, P) && Wrote(a, s, t, z, root)
    ensures Kept(a, s, z, root, P)
  {
    hide Footprint, Look, PageOf;
  }

  lemma RangeBacked(a: Arch, s: Phys, t: Phys, root: nat, lo: nat, hi: nat)
    requires OwnFrames(a, t, root, lo, hi) && forall u: U64Value :: lo <= u < hi ==> Loaded(a, s, t, root, u, 0)
    ensures AllBacked(a, s, t, root, lo, hi)
    ensures forall u: U64Value :: lo <= u < hi ==> Read(a, t, root, u) == 0
  {
    hide Footprint, Look, LoadByte, PhysAddr, Backed, OwnFrames;
    forall u: U64Value | lo <= u < hi
      ensures Backed(a, s, t, root, u) && Read(a, t, root, u) == 0
    {
      assert Loaded(a, s, t, root, u, 0);
    }
  }

  lemma WroteGranted(a: Arch, s0: Phys, s: Phys, t: Phys, root: nat, lo: nat, hi: nat, flags: Flags)
    requires AllGranted(a, s, root, lo, hi, flags) && Wrote(a, s0, s, t, root)
    ensures AllGranted(a, t, root, lo, hi, flags)
  {
    hide Footprint, Look, LeafEntry;
    forall u: U64Value | lo <= u < hi
      ensures Granted(a, t, root, u, flags)
    {
      assert Granted(a, s, root, u, flags);
    }
  }

  /** One PT_LOAD segment: every byte of it reads its file byte, or zero past the file, out of frames of its
      own; nothing that was in use before is written. */
  lemma SegmentFacts(a: Arch, s: Phys, root: nat, seg: Segment, file: seq<Byte>)
    requires SpaceReady(a, s, root) && SegmentOk(a, seg) && PageEnd(seg) <= U64
    requires RangeEnabled(a, s, root, PageStart(seg), PageEnd(seg), SegmentFlags(seg))
    ensures var t := LoadSegment(a, s, root, seg, file);
            Kept(a, s, t, root, SegmentPages(seg)) && SegmentLoaded(a, s, t, root, seg, file)
  {
    hide Footprint, Look, PhysAddr, LoadByte, PageStart, PageEnd, SegmentFlags, PagesIn, Kept, Wrote, Backed, OwnFrames,
      SpaceReady, Loaded, AllBacked, AllGranted, MapRange, CopyBytes, RangeEnabled, Pages, Read;
    SegmentBounds(a, seg);
    FlagsPresent(seg);
    var lo, hi := PageStart(seg), PageEnd(seg);
    MapRangeFacts(a, s, root, lo, hi, SegmentFlags(seg));
    var m := MapRange(a, s, root, lo, hi, SegmentFlags(seg));
    KeptReady(a, s, m, root, PagesIn(lo, hi));
    RangeBacked(a, s, m, root, lo, hi);
    CopyFacts(a, s, m, root, seg, file, 0, lo, hi);
    WroteKept(a, s, m, CopyBytes(a, m, root, seg, file, 0), root, PagesIn(lo, hi));
    WroteGranted(a, s, m, CopyBytes(a, m, root, seg, file, 0), root, lo, hi, SegmentFlags(seg));
  }
}

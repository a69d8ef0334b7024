/** The loader and paging_identity_map short of frames: neither looks at what pmm_alloc_frame returned. */
module LoaderFailure {
  import opened Pmm
  import opened PageTable
  import opened PageAddress
  import opened PageTree
  import opened PageOps
  import opened PageRuns
  import opened PageFailure
  import opened PageIdentity
  import opened PhysBytes
  import opened Loader

  // ---------------------------------------------------------------- one page of the loader

  /** The tables are a tree and the page has a frame of its own. */
  ghost predicate PageWhole(a: Arch, t: Phys, root: nat, va: U64Value) {
    Tree(a, t.mem, root, Levels(a)) && FrameAt(a, t, root, va) != 0
  }

  /** The frame taken, cleared, and nothing else: what a turn starts mapping from. */
  lemma AfterClearing(a: Arch, s: Phys, root: nat, va: U64Value)
    requires SpaceReady(a, s, root)
    ensures var (s1, g) := AllocFrame(s);
            var s2 := s1.(mem := ZeroBytes(s1.mem, g, 0));
            && SpaceReady(a, s2, root) && |s2.mem| == |s.mem|
            && Missing(a, s2.mem, root, Levels(a), va) == Missing(a, s.mem, root, Levels(a), va)
            && Look(a, s2.mem, root, va) == Look(a, s.mem, root, va)
            && (Avail(s) == 0 ==> g == 0 && Avail(s2) == 0)
            && (Avail(s) > 0 ==> Avail(s2) == Avail(s) - 1)
            && forall o: nat :: o < PAGE ==> FrameByte(s2.mem, g, o) == 0
  {
    hide Foot, Tree, Walk, AllocFrame, FrameByte, Missing, Free;
    FootInRange(a, s.mem, root, Levels(a));
    if Avail(s) == 0 { AllocFails(s); } else { AllocFacts(s); }
    var (s1, g) := AllocFrame(s);
    ZeroBytesFacts(s1.mem, g, 0);
    var s2 := s1.(mem := ZeroBytes(s1.mem, g, 0));
    Frame(a, s.mem, s2.mem, root, Levels(a));
    FrameWalk(a, s.mem, s2.mem, root, Levels(a), va);
  }

  /** Without a free frame, but with the tables there, the loader clears frame 0 and maps it at va, for user code. */
  lemma NoFrameMapsZero(a: Arch, s: Phys, root: nat, va: U64Value, flags: Flags)
    requires SpaceReady(a, s, root) && !Stops(Look(a, s.mem, root, va)) && PresentFlag(flags)
    requires Avail(s) == 0 && Missing(a, s.mem, root, Levels(a), va) == 0
    ensures var t := LoadPage(a, s, root, va, flags);
            && Look(a, t.mem, root, va) == Leaf(1, LeafEntry(a, 0, flags))
            && forall o: nat :: o < PAGE ==> FrameByte(t.mem, 0, o) == 0
  {
    hide Foot, Tree, Walk, AllocFrame, FrameByte, LoadByte, Missing, Free, LeafEntry, ZeroBytes, MapPage, Stops;
    AfterClearing(a, s, root, va);
    var (s1, g) := AllocFrame(s);
    var s2 := s1.(mem := ZeroBytes(s1.mem, g, 0));
    MapGrows(a, s2, root, Levels(a), va, 0, flags);
    MapWalks(a, s2, root, Levels(a), va, 0, flags, va);
    SamePageIff(va, va, Levels(a));
    var t := MapPage(a, s2, root, Levels(a), va, 0, flags);
    FootInRange(a, t.mem, root, Levels(a));
    forall o: nat | o < PAGE
      ensures FrameByte(t.mem, 0, o) == 0
    {
      SameFrameByte(s2.mem, t.mem, o);
    }
  }

  lemma SameFrameByte(m: Memory, n: Memory, o: nat)
    requires |n| == |m| > 0 && n[0] == m[0] && o < PAGE
    ensures FrameByte(n, 0, o) == FrameByte(m, 0, o)
  {
    hide GetByte, Value;
  }

  /** One turn of the loader ends with sound tables and a frame for the page exactly when there is a free frame
      for it and for every table missing on its path. */
  lemma LoadPageWholeIff(a: Arch, s: Phys, root: nat, va: U64Value, flags: Flags)
    requires SpaceReady(a, s, root) && !Stops(Look(a, s.mem, root, va)) && PresentFlag(flags)
    ensures PageWhole(a, LoadPage(a, s, root, va, flags), root, va)
            <==> Missing(a, s.mem, root, Levels(a), va) + 1 <= Avail(s)
  {
    hide Foot, Tree, Walk, AllocFrame, FrameByte, Missing, Free, LeafEntry, ZeroBytes, MapPage, Stops, PageOf, FrameOf, LoadByte;
    if Missing(a, s.mem, root, Levels(a), va) + 1 <= Avail(s) {
      LoadPageFacts(a, s, root, va, flags);
      assert Backed(a, s, LoadPage(a, s, root, va, flags), root, va);
    } else {
      AfterClearing(a, s, root, va);
      var (s1, g) := AllocFrame(s);
      var s2 := s1.(mem := ZeroBytes(s1.mem, g, 0));
      if Missing(a, s.mem, root, Levels(a), va) == 0 {
        NoFrameMapsZero(a, s, root, va, flags);
        FrameFits(a, 0, flags);
      } else {
        FrameFits(a, g, flags);
        MapBreaks(a, s2, root, Levels(a), va, g * PAGE, flags);
      }
    }
  }

  // ---------------------------------------------------------------- one turn of paging_identity_map

  /** Entries of frame 0, if present, lead back to frame 0. */
  ghost predicate ZeroLoops(m: Memory) {
    forall i: nat :: Present(Get(m, 0, i)) ==> FrameOf(X86, Get(m, 0, i)) == 0
  }

  /** Once ensure_table has handed out frame 0 for want of another, the turn writes frame 0 only. */
  lemma {:induction false} FromZero(s: Phys, d: Depth, addr: U64Value)
    requires d > 1 && Sane(s) && Avail(s) == 0 && ZeroLoops(s.mem)
    ensures var t := IdentityPage(s, 0, d, addr);
            |t.mem| == |s.mem| && forall x: nat :: 0 < x < |s.mem| ==> t.mem[x] == s.mem[x]
    decreases d
  {
    hide Index, AllocFrame, Free;
    if d > 2 {
      var i := Index(addr, d);
      AllocFails(s);
      NilFacts(X86);
      EntryFacts(X86, 0, false);
      var (s1, c) := EnsureTable(s, 0, i);
      assert c == 0 && s1.used == s.used && ZeroLoops(s1.mem);
      SameFree(s, s1);
      FromZero(s1, d - 1, addr);
    }
  }

  lemma SameFree(s: Phys, t: Phys)
    requires |t.mem| == |s.mem| && t.used == s.used
    ensures Avail(t) == Avail(s)
  {
  }

  /** What a turn needs besides frames. */
  ghost predicate TurnReady(s: Phys, f: nat, d: Depth, addr: U64Value)
    requires d > 1
  {
    && Sane(s) && Tree(X86, s.mem, f, d) && Foot(X86, s.mem, f, d) <= s.used && !HighLeaf(Walk(X86, s.mem, f, d, addr))
  }

  /** A turn whose tables find no frame: ensure_table hangs frame 0 under f. */
  lemma EnsureFails(s: Phys, f: nat, d: Depth, addr: U64Value)
    requires d > 2 && TurnReady(s, f, d, addr) && Avail(s) == 0 && !Present(Get(s.mem, f, Index(addr, d)))
    ensures var t := IdentityPage(s, f, d, addr);
            && |t.mem| == |s.mem| && HasKid(X86, t.mem, f, d, Index(addr, d)) && Kid(X86, t.mem, f, Index(addr, d)) == 0
            && forall x: nat :: 0 < x < |s.mem| && x != f ==> t.mem[x] == s.mem[x]
  {
    hide Foot, Index, Walk, AllocFrame, Free;
    AllocFails(s);
    NilFacts(X86);
    EntryFacts(X86, 0, false);
    var (s1, c) := EnsureTable(s, f, Index(addr, d));
    SameFree(s, s1);
    FromZero(s1, d - 1, addr);
  }

  /** A turn that finds a frame for its next table goes on from there; or had one already. */
  lemma EnsureStep(s: Phys, f: nat, d: Depth, addr: U64Value)
    requires d > 2 && TurnReady(s, f, d, addr) && (Present(Get(s.mem, f, Index(addr, d))) || Avail(s) > 0)
    ensures var i := Index(addr, d);
            var (s1, c) := EnsureTable(s, f, i);
            && TurnReady(s1, c, d - 1, addr) && HasKid(X86, s1.mem, f, d, i) && Kid(X86, s1.mem, f, i) == c
            && |s1.mem| == |s.mem| && s.used <= s1.used && 0 < f < |s.mem| && f in s.used
            && f !in Foot(X86, s1.mem, c, d - 1)
            && (forall x: nat :: x in s.used && x !in Foot(X86, s.mem, f, d) ==> x !in Foot(X86, s1.mem, c, d - 1) && x in s1.used)
            && (forall x: nat :: x in s.used && x != f && x < |s.mem| ==> s1.mem[x] == s.mem[x])
            && MissingBig(s1.mem, c, d - 1, addr) - Avail(s1) == MissingBig(s.mem, f, d, addr) - Avail(s)
  {
    hide Foot, KidFoot, Tree, Index, AllocFrame, Free;
    var i := Index(addr, d);
    FootParts(X86, s.mem, f, d, i);
    assert Present(Get(s.mem, f, i)) ==> IsTable(X86, Get(s.mem, f, i));
    EnsureIsGet(s, f, d, i);
    if !HasKid(X86, s.mem, f, d, i) {
      CreateFacts(X86, s, f, d, i, false);
      var (s1, c) := EnsureTable(s, f, i);
      ZeroTree(X86, s1.mem, c, d - 1);
      ZeroBig(s1.mem, c, d - 1);
    }
  }

  /** Short of frames or not, a turn writes no used frame outside the tree but frame 0. */
  lemma {:induction false} IdentitySpares(s: Phys, f: nat, d: Depth, addr: U64Value, x: nat)
    requires d > 1 && TurnReady(s, f, d, addr) && x in s.used && x !in Foot(X86, s.mem, f, d) && x != 0
    ensures var t := IdentityPage(s, f, d, addr);
            |t.mem| == |s.mem| && t.mem[x] == s.mem[x]
    decreases d
  {
    hide Foot, KidFoot, Tree, Index, Walk, EnsureTable, Avail;
    FootParts(X86, s.mem, f, d, Index(addr, d));
    if d > 2 {
      if Present(Get(s.mem, f, Index(addr, d))) || Avail(s) > 0 {
        EnsureStep(s, f, d, addr);
        var (s1, c) := EnsureTable(s, f, Index(addr, d));
        IdentitySpares(s1, c, d - 1, addr, x);
      } else {
        EnsureFails(s, f, d, addr);
      }
    }
  }

  lemma {:induction false} IdentityBreaks(s: Phys, f: nat, d: Depth, addr: U64Value)
    requires d > 1 && TurnReady(s, f, d, addr) && MissingBig(s.mem, f, d, addr) > Avail(s)
    ensures !Tree(X86, IdentityPage(s, f, d, addr).mem, f, d)
    decreases d
  {
    hide Foot, KidFoot, Tree, Index, Walk, EnsureTable, Avail;
    var i := Index(addr, d);
    var t := IdentityPage(s, f, d, addr);
    FootParts(X86, t.mem, f, d, i);
    if d > 2 {
      if Present(Get(s.mem, f, i)) || Avail(s) > 0 {
        EnsureStep(s, f, d, addr);
        var (s1, c) := EnsureTable(s, f, i);
        IdentityBreaks(s1, c, d - 1, addr);
        IdentitySpares(s1, c, d - 1, addr, f);
      } else {
        EnsureFails(s, f, d, addr);
        FootParts(X86, t.mem, 0, d - 1, 0);
      }
    }
  }

  /** One turn of paging_identity_map leaves the tables a tree exactly when there is a free frame for every table
      missing on the way to the page directory. */
  lemma IdentityWholeIff(s: Phys, f: nat, d: Depth, addr: U64Value)
    requires d > 1 && TurnReady(s, f, d, addr)
    ensures Tree(X86, IdentityPage(s, f, d, addr).mem, f, d) <==> MissingBig(s.mem, f, d, addr) <= Avail(s)
  {
    hide Foot, Tree, Walk, IdentityPage, MissingBig, Avail, HighLeaf;
    if MissingBig(s.mem, f, d, addr) <= Avail(s) {
      IdentityGrows(s, f, d, addr);
    } else {
      IdentityBreaks(s, f, d, addr);
    }
  }
}

/** vmm.c never checks pmm_alloc_frame for failure. With frames enough its operations do what PageOps and
    PageClone say; with too few they provably do not. */
module PageFailure {
  import opened Pmm
  import opened PageTable
  import opened PageTree
  import opened PageOps
  import opened PageClone

  lemma {:induction false} AllocFails(s: Phys)
    requires Sane(s) && Avail(s) == 0
    ensures AllocFrame(s) == (s, 0)
  {
    assert forall r: nat :: RunFree(s.used, |s.mem|, r, 1) ==> r in Free(s.used, |s.mem|);
    NoRun(s.used, |s.mem|, 1, 0);
  }

  /** Without a frame, get_or_create_table hangs frame 0 into the table and reports NULL. */
  lemma CreateFails(a: Arch, s: Phys, f: nat, d: Depth, i: nat, user: bool)
    requires d > 1 && i < 512 && Sane(s) && Tree(a, s.mem, f, d)
    requires !Present(Get(s.mem, f, i)) && Avail(s) == 0
    ensures var (t, c) := GetOrCreate(a, s, f, i, user);
            && c == 0 && |t.mem| == |s.mem| && HasKid(a, t.mem, f, d, i) && Kid(a, t.mem, f, i) == 0
            && forall x: nat :: x < |s.mem| && x != f && x != 0 ==> t.mem[x] == s.mem[x]
  {
    AllocFails(s);
    EntryFacts(a, 0, user);
  }

  /** Even when it fails, vmm_map writes no used frame outside the tree but frame 0. */
  lemma {:induction false} MapSpares(a: Arch, s: Phys, f: nat, d: Depth, v: U64Value, phys: U64Value, flags: Flags, x: nat)
    requires Sane(s) && Tree(a, s.mem, f, d) && Foot(a, s.mem, f, d) <= s.used
    requires x in s.used && x !in Foot(a, s.mem, f, d) && x != 0
    ensures var t := MapPage(a, s, f, d, v, phys, flags);
            |t.mem| == |s.mem| && t.mem[x] == s.mem[x]
    decreases d
  {
    hide Foot, KidFoot, Tree, GetOrCreate, Avail;
    var i := Index(v, d);
    FootParts(a, s.mem, f, d, i);
    if d > 1 {
      if IsTable(a, Get(s.mem, f, i)) {
        DescendFacts(a, s, f, d, i, UserFlag(flags));
        var (s1, c) := GetOrCreate(a, s, f, i, UserFlag(flags));
        MapSpares(a, s1, c, d - 1, v, phys, flags, x);
      } else if Present(Get(s.mem, f, i)) {
        MapStopped(a, s, f, d, i, UserFlag(flags));
      } else if Avail(s) == 0 {
        CreateFails(a, s, f, d, i, UserFlag(flags));
      } else {
        CreateFacts(a, s, f, d, i, UserFlag(flags));
        var (s1, c) := GetOrCreate(a, s, f, i, UserFlag(flags));
        MapSpares(a, s1, c, d - 1, v, phys, flags, x);
      }
    }
  }

  lemma {:induction false} MapBreaks(a: Arch, s: Phys, f: nat, d: Depth, v: U64Value, phys: U64Value, flags: Flags)
    requires Sane(s) && Tree(a, s.mem, f, d) && Foot(a, s.mem, f, d) <= s.used
    requires Missing(a, s.mem, f, d, v) > Avail(s)
    ensures !Tree(a, MapPage(a, s, f, d, v, phys, flags).mem, f, d)
    decreases d
  {
    hide Foot, KidFoot, Tree, GetOrCreate, Avail, Index;
    var i := Index(v, d);
    var t := MapPage(a, s, f, d, v, phys, flags);
    FootParts(a, s.mem, f, d, i);
    FootParts(a, t.mem, f, d, i);
    if IsTable(a, Get(s.mem, f, i)) {
      DescendFacts(a, s, f, d, i, UserFlag(flags));
      var (s1, c) := GetOrCreate(a, s, f, i, UserFlag(flags));
      DescendAvail(a, s, f, d, v, UserFlag(flags));
      MapBreaks(a, s1, c, d - 1, v, phys, flags);
      MapSpares(a, s1, c, d - 1, v, phys, flags, f);
    } else if Avail(s) == 0 {
      CreateFails(a, s, f, d, i, UserFlag(flags));
      FootParts(a, t.mem, 0, d - 1, 0);
    } else {
      CreateFacts(a, s, f, d, i, UserFlag(flags));
      var (s1, c) := GetOrCreate(a, s, f, i, UserFlag(flags));
      ZeroTree(a, s1.mem, c, d - 1);
      MapBreaks(a, s1, c, d - 1, v, phys, flags);
      MapSpares(a, s1, c, d - 1, v, phys, flags, f);
    }
  }

  lemma DescendAvail(a: Arch, s: Phys, f: nat, d: Depth, v: U64Value, user: bool)
    requires d > 1 && Sane(s) && Tree(a, s.mem, f, d) && Foot(a, s.mem, f, d) <= s.used
    requires IsTable(a, Get(s.mem, f, Index(v, d)))
    ensures var (s1, c) := GetOrCreate(a, s, f, Index(v, d), user);
            && Missing(a, s1.mem, c, d - 1, v) == Missing(a, s.mem, f, d, v) && Avail(s1) == Avail(s)
            && Foot(a, s1.mem, c, d - 1) <= s1.used && f !in Foot(a, s1.mem, c, d - 1) && f in s1.used && f != 0
  {
    var i := Index(v, d);
    DescendFacts(a, s, f, d, i, user);
    var (s1, c) := GetOrCreate(a, s, f, i, user);
    FootParts(a, s.mem, f, d, i);
    FrameWalk(a, s.mem, s1.mem, c, d - 1, v);
  }

  /** vmm_map leaves a well-formed tree exactly when there is a free frame for every missing table. */
  lemma MapKeepsTreeIff(a: Arch, s: Phys, f: nat, d: Depth, v: U64Value, phys: U64Value, flags: Flags)
    requires Sane(s) && Tree(a, s.mem, f, d) && Foot(a, s.mem, f, d) <= s.used
    ensures Tree(a, MapPage(a, s, f, d, v, phys, flags).mem, f, d) <==> Missing(a, s.mem, f, d, v) <= Avail(s)
  {
    hide Foot, Tree, MapPage, Missing, Avail;
    if Missing(a, s.mem, f, d, v) <= Avail(s) {
      MapGrows(a, s, f, d, v, phys, flags);
    } else {
      MapBreaks(a, s, f, d, v, phys, flags);
    }
  }

  // ---------------------------------------------------------------- a clone short of frames

  /** Some path from f leads to frame 0, through tables of F. */
  ghost predicate LeadsToZero(a: Arch, m: Memory, f: nat, d: Depth, F: set<nat>)
    decreases d
  {
    f == 0 || (f in F && exists i: nat :: HasKid(a, m, f, d, i) && LeadsToZero(a, m, Kid(a, m, f, i), d - 1, F))
  }

  lemma {:induction false} LeadsIsNoTree(a: Arch, m: Memory, f: nat, d: Depth, F: set<nat>)
    requires LeadsToZero(a, m, f, d, F)
    ensures !Tree(a, m, f, d)
    decreases d
  {
    if f != 0 {
      var i: nat :| HasKid(a, m, f, d, i) && LeadsToZero(a, m, Kid(a, m, f, i), d - 1, F);
      LeadsIsNoTree(a, m, Kid(a, m, f, i), d - 1, F);
    }
  }

  /** The path stays while nobody writes its tables, and as more tables are counted in. */
  lemma {:induction false} StillLeads(a: Arch, m: Memory, n: Memory, f: nat, d: Depth, F: set<nat>, G: set<nat>)
    requires LeadsToZero(a, m, f, d, F) && F <= G && Agree(m, n, F)
    ensures LeadsToZero(a, n, f, d, G)
    decreases d
  {
    if f != 0 {
      var i: nat :| HasKid(a, m, f, d, i) && LeadsToZero(a, m, Kid(a, m, f, i), d - 1, F);
      assert Get(n, f, i) == Get(m, f, i);
      StillLeads(a, m, n, Kid(a, m, f, i), d - 1, F, G);
      assert HasKid(a, n, f, d, i);
    }
  }

  /** Of the frames used in s, t writes none but those of W. */
  ghost predicate Spares(s: Phys, t: Phys, W: set<nat>) {
    |t.mem| == |s.mem| && Sane(t) && s.used <= t.used && Agree(s.mem, t.mem, s.used - W)
  }

  /** With no frame left, the cloning loop takes none and writes frame 0 and its own table only. */
  lemma {:induction false} CloneFromDry(a: Arch, s: Phys, src: nat, dst: nat, d: Depth, i: nat)
    requires i <= 512 && Sane(s) && Avail(s) == 0 && dst in s.used
    ensures var t := CloneFrom(a, s, src, dst, d, i);
            && Spares(s, t, {0, dst}) && t.used == s.used
            && (dst != 0 ==> forall j: nat :: j < i ==> Get(t.mem, dst, j) == Get(s.mem, dst, j))
    decreases d, 512 - i
  {
    hide IsTable, Present, CloneEntry, FrameOf, Clone, AllocFrame;
    if i < 512 {
      var w := Get(s.mem, src, i);
      if d > 1 && IsTable(a, w) {
        CloneDry(a, s, FrameOf(a, w), d - 1);
      }
      var s1 := CloneSlot(a, s, src, dst, d, i);
      CloneFromDry(a, s1, src, dst, d, i + 1);
    }
  }

  lemma {:induction false} CloneDry(a: Arch, s: Phys, src: nat, d: Depth)
    requires Sane(s) && Avail(s) == 0
    ensures var (t, g) := Clone(a, s, src, d);
            g == 0 && Spares(s, t, {0}) && t.used == s.used
    decreases d, 513
  {
    AllocFails(s);
    CloneFromDry(a, s.(mem := Clear(s.mem, 0)), src, 0, d, 0);
  }

  /** What the loop needs at turn i, with frames for the tables or without: a source of its own, intact. */
  ghost predicate Cloning(a: Arch, s: Phys, src: nat, dst: nat, d: Depth) {
    && Sane(s) && Tree(a, s.mem, src, d) && Foot(a, s.mem, src, d) <= s.used
    && dst in s.used && dst !in Foot(a, s.mem, src, d) && dst != 0
  }

  /** From t on the clone in dst leads to frame 0, and there is no frame left. */
  ghost predicate Broken(a: Arch, s: Phys, t: Phys, dst: nat, d: Depth) {
    Spares(s, t, {0, dst}) && Avail(t) == 0 && LeadsToZero(a, t.mem, dst, d, t.used - s.used + {dst})
  }

  /** A turn whose subtree finds no room breaks the clone for good. */
  lemma SlotBreaks(a: Arch, s: Phys, src: nat, dst: nat, d: Depth, i: nat, s1: Phys, c: nat)
    requires i < 512 && Cloning(a, s, src, dst, d) && HasKid(a, s.mem, src, d, i) && c < 0x10_0000_0000
    requires Spares(s, s1, {0}) && Avail(s1) == 0 && LeadsToZero(a, s1.mem, c, d - 1, s1.used - s.used)
    ensures var s2 := s1.(mem := Put(s1.mem, dst, i, CloneEntry(a, c, Get(s.mem, src, i))));
            Broken(a, s, CloneFrom(a, s2, src, dst, d, i + 1), dst, d)
  {
    hide Foot, Tree, IsTable, CloneEntry, FrameOf, CloneFrom, CloneSlot, Avail;
    var s2 := s1.(mem := Put(s1.mem, dst, i, CloneEntry(a, c, Get(s.mem, src, i))));
    CloneEntryFacts(a, c, Get(s.mem, src, i));
    assert Avail(s2) == 0 by { SameAvail(s1, s2); }
    CloneFromDry(a, s2, src, dst, d, i + 1);
    var t := CloneFrom(a, s2, src, dst, d, i + 1);
    SameAvail(s2, t);
    assert Get(t.mem, dst, i) == CloneEntry(a, c, Get(s.mem, src, i));
    StillLeads(a, s1.mem, t.mem, c, d - 1, s1.used - s.used, t.used - s.used + {dst});
    assert HasKid(a, t.mem, dst, d, i) && Kid(a, t.mem, dst, i) == c;
  }

  lemma SameAvail(s: Phys, t: Phys)
    requires |t.mem| == |s.mem| && t.used == s.used
    ensures Avail(t) == Avail(s)
  {
  }

  /** After a turn that found room, the source is intact and the frames left are as many fewer. */
  lemma SlotHolds(a: Arch, s: Phys, src: nat, dst: nat, d: Depth, i: nat)
    requires i < 512 && Cloning(a, s, src, dst, d)
    requires HasKid(a, s.mem, src, d, i) ==> Tables(a, s.mem, Kid(a, s.mem, src, i), d - 1) <= Avail(s)
    ensures var s1 := CloneSlot(a, s, src, dst, d, i);
            && Cloning(a, s1, src, dst, d) && Spares(s, s1, {dst})
            && TablesFrom(a, s1.mem, src, d, i + 1) - Avail(s1) == TablesFrom(a, s.mem, src, d, i) - Avail(s)
  {
    hide Foot, Tree, KidFoot, IsTable, Present, CloneEntry, FrameOf, Clone, Free, Avail;
    var s1 := CloneSlot(a, s, src, dst, d, i);
    if HasKid(a, s.mem, src, d, i) {
      SlotHoldsTable(a, s, src, dst, d, i);
    } else {
      TableNeedsKid(a, s, src, d, i);
      SameAvail(s, s1);
    }
    Frame(a, s.mem, s1.mem, src, d);
    FrameTables(a, s.mem, s1.mem, src, d, i + 1);
  }

  lemma TableNeedsKid(a: Arch, s: Phys, src: nat, d: Depth, i: nat)
    requires i < 512 && !HasKid(a, s.mem, src, d, i)
    ensures d == 1 || !IsTable(a, Get(s.mem, src, i))
  {
  }

  lemma SlotHoldsTable(a: Arch, s: Phys, src: nat, dst: nat, d: Depth, i: nat)
    requires i < 512 && Cloning(a, s, src, dst, d) && HasKid(a, s.mem, src, d, i)
    requires Tables(a, s.mem, Kid(a, s.mem, src, i), d - 1) <= Avail(s)
    ensures var s1 := CloneSlot(a, s, src, dst, d, i);
            Spares(s, s1, {dst}) && Avail(s1) == Avail(s) - Tables(a, s.mem, Kid(a, s.mem, src, i), d - 1)
  {
    hide Foot, Tree, KidFoot, Clone, Avail, Tables, SameWalk;
    FootParts(a, s.mem, src, d, i);
    CloneFacts(a, s, Kid(a, s.mem, src, i), d - 1);
    TableNotBlocked(a, Get(s.mem, src, i));
    var (s0, c) := Clone(a, s, Kid(a, s.mem, src, i), d - 1);
    SameAvail(s0, CloneSlot(a, s, src, dst, d, i));
  }

  lemma {:induction false} CloneFromBreaks(a: Arch, s: Phys, src: nat, dst: nat, d: Depth, i: nat)
    requires i <= 512 && Cloning(a, s, src, dst, d) && TablesFrom(a, s.mem, src, d, i) > Avail(s)
    ensures Broken(a, s, CloneFrom(a, s, src, dst, d, i), dst, d)
    decreases d, 512 - i
  {
    hide Foot, Tree, KidFoot, IsTable, Present, CloneEntry, FrameOf, Clone, CloneSlot, Cloning, Broken, Tables, Avail, Free;
    if i < 512 {
      var s1 := CloneSlot(a, s, src, dst, d, i);
      var t := CloneFrom(a, s1, src, dst, d, i + 1);
      if HasKid(a, s.mem, src, d, i) && Tables(a, s.mem, Kid(a, s.mem, src, i), d - 1) > Avail(s) {
        KidBreaks(a, s, src, dst, d, i);
      } else {
        SlotHolds(a, s, src, dst, d, i);
        CloneFromBreaks(a, s1, src, dst, d, i + 1);
        BrokenSince(a, s, s1, t, dst, d);
      }
    }
  }

  lemma {:induction false} KidBreaks(a: Arch, s: Phys, src: nat, dst: nat, d: Depth, i: nat)
    requires i < 512 && Cloning(a, s, src, dst, d) && HasKid(a, s.mem, src, d, i)
    requires Tables(a, s.mem, Kid(a, s.mem, src, i), d - 1) > Avail(s)
    ensures Broken(a, s, CloneFrom(a, CloneSlot(a, s, src, dst, d, i), src, dst, d, i + 1), dst, d)
    decreases d, 512 - i, 0
  {
    hide Foot, Tree, KidFoot, Clone, CloneFrom, Tables, Avail, Broken;
    FootParts(a, s.mem, src, d, i);
    TableNotBlocked(a, Get(s.mem, src, i));
    CloneBreaks(a, s, Kid(a, s.mem, src, i), d - 1);
    var (s1, c) := Clone(a, s, Kid(a, s.mem, src, i), d - 1);
    SlotBreaks(a, s, src, dst, d, i, s1, c);
  }

  lemma BrokenSince(a: Arch, s: Phys, s1: Phys, t: Phys, dst: nat, d: Depth)
    requires Spares(s, s1, {dst}) && Broken(a, s1, t, dst, d)
    ensures Broken(a, s, t, dst, d)
  {
    hide Avail, LeadsToZero;
    StillLeads(a, t.mem, t.mem, dst, d, t.used - s1.used + {dst}, t.used - s.used + {dst});
  }

  /** A clone short of frames hangs frame 0 somewhere, where no later turn rewrites it. */
  lemma {:induction false} CloneBreaks(a: Arch, s: Phys, src: nat, d: Depth)
    requires Sane(s) && Tree(a, s.mem, src, d) && Foot(a, s.mem, src, d) <= s.used
    requires Tables(a, s.mem, src, d) > Avail(s)
    ensures var (t, g) := Clone(a, s, src, d);
            Spares(s, t, {0}) && Avail(t) == 0 && LeadsToZero(a, t.mem, g, d, t.used - s.used)
    decreases d, 513
  {
    hide Foot, Tree, KidFoot, TablesFrom, CloneFrom, AllocFrame, Avail, Free;
    if Avail(s) == 0 {
      CloneDry(a, s, src, d);
      SameAvail(s, Clone(a, s, src, d).0);
    } else {
      AllocFacts(s);
      var (s0, g) := AllocFrame(s);
      var s1 := s0.(mem := Clear(s0.mem, g));
      SameAvail(s0, s1);
      Frame(a, s.mem, s1.mem, src, d);
      FrameTables(a, s.mem, s1.mem, src, d, 0);
      CloneFromBreaks(a, s1, src, g, d, 0);
      var t := CloneFrom(a, s1, src, g, d, 0);
      StillLeads(a, t.mem, t.mem, g, d, t.used - s1.used + {g}, t.used - s.used);
    }
  }

  /** A clone is a well-formed tree exactly when there is a free frame for every table of its source; then it
      also walks as its source does. */
  lemma CloneWholeIff(a: Arch, s: Phys, src: nat, d: Depth)
    requires Sane(s) && Tree(a, s.mem, src, d) && Foot(a, s.mem, src, d) <= s.used
    ensures var (t, g) := Clone(a, s, src, d);
            && (Tree(a, t.mem, g, d) <==> Tables(a, s.mem, src, d) <= Avail(s))
            && (Tree(a, t.mem, g, d) ==> Cloned(a, s, src, t, g, d))
  {
    hide Foot, Tree, Clone, Tables, Avail;
    var (t, g) := Clone(a, s, src, d);
    if Tables(a, s.mem, src, d) <= Avail(s) {
      CloneFacts(a, s, src, d);
      ClonedIsTree(a, s, src, t, g, d);
    } else {
      CloneBreaks(a, s, src, d);
      LeadsIsNoTree(a, t.mem, g, d, t.used - s.used);
    }
  }

  lemma ClonedIsTree(a: Arch, s: Phys, src: nat, t: Phys, g: nat, d: Depth)
    requires Cloned(a, s, src, t, g, d)
    ensures Tree(a, t.mem, g, d)
  {
    hide Tree, Foot, Tables, Avail, SameWalk;
  }
}

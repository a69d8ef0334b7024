/** What vmm_map, vmm_unmap, clone_table_level and free_table_level do to a tree of tables:
    for every depth, both architectures and every address. */
module PageOps {
  import opened Pmm
  import opened PageTable
  import opened PageTree

  /** Every used frame exists, and frame 0, which doubles as failure, is never handed out. */
  ghost predicate Sane(s: Phys) {
    0 in s.used && forall f: nat :: f in s.used ==> f < |s.mem|
  }

  ghost function Avail(s: Phys): nat {
    |Free(s.used, |s.mem|)|
  }

  lemma AllocFacts(s: Phys)
    requires Sane(s) && Avail(s) >= 1
    ensures var (t, g) := AllocFrame(s);
            g !in s.used && 0 < g < |s.mem| && t == s.(used := s.used + {g}) && Sane(t) && Avail(t) == Avail(s) - 1
  {
    FirstRunIsLowest(s.used, |s.mem|, 1, 0);
    var x :| x in Free(s.used, |s.mem|);
    assert RunFree(s.used, |s.mem|, x, 1);
    var (t, g) := AllocFrame(s);
    TakeCount(s.used, |s.mem|, {g});
  }

  /** t is s after the tree at f took t.used - s.used as new tables, and wrote nothing outside itself. */
  ghost predicate Grown(a: Arch, s: Phys, t: Phys, f: nat, d: Depth) {
    && |t.mem| == |s.mem| && Sane(t) && s.used <= t.used
    && Tree(a, t.mem, f, d)
    && Foot(a, t.mem, f, d) == Foot(a, s.mem, f, d) + (t.used - s.used)
    && forall x: nat :: x < |s.mem| && x !in Foot(a, t.mem, f, d) ==> t.mem[x] == s.mem[x]
  }

  /** Entry i of f was made to lead to c in s1, and the tree at c then grew into t: so did f's. */
  lemma GrownGraft(a: Arch, s: Phys, s1: Phys, t: Phys, f: nat, d: Depth, i: nat)
    requires d > 1 && i < 512 && Sane(s) && Tree(a, s.mem, f, d) && Foot(a, s.mem, f, d) <= s.used
    requires |s1.mem| == |s.mem| && s.used <= s1.used
    requires HasKid(a, s1.mem, f, d, i)
    requires forall j: nat :: j != i ==> Get(s1.mem, f, j) == Get(s.mem, f, j)
    requires KidFoot(a, s1.mem, f, d, i) == KidFoot(a, s.mem, f, d, i) + (s1.used - s.used)
    requires forall x: nat :: x < |s.mem| && x != f && x !in KidFoot(a, s1.mem, f, d, i) ==> s1.mem[x] == s.mem[x]
    requires Grown(a, s1, t, Kid(a, s1.mem, f, i), d - 1)
    ensures Grown(a, s, t, f, d) && t.mem[f] == s1.mem[f]
    ensures Agree(s.mem, t.mem, Foot(a, s.mem, f, d) - {f} - KidFoot(a, s.mem, f, d, i))
    ensures forall j: nat :: j != i ==> Get(t.mem, f, j) == Get(s.mem, f, j)
  {
    hide Foot, KidFoot, Tree, IsTable, Present, Blocked, FrameOf;
    FootParts(a, s.mem, f, d, i);
    FootParts(a, s1.mem, f, d, i);
    FootParts(a, t.mem, f, d, i);
    FootInRange(a, s.mem, f, d);
    assert t.mem[f] == s1.mem[f];
    assert forall j: nat :: Get(t.mem, f, j) == Get(s1.mem, f, j);
    TableNotBlocked(a, Get(t.mem, f, i));
    Graft(a, s.mem, t.mem, f, d, i);
  }

  lemma TableNotBlocked(a: Arch, w: Word)
    requires IsTable(a, w)
    ensures Present(w) && !Blocked(a, w)
  {
  }

  /** get_or_create_table on an absent entry: one new zeroed table hangs from it. */
  lemma CreateFacts(a: Arch, s: Phys, f: nat, d: Depth, i: nat, user: bool)
    requires d > 1 && i < 512 && Sane(s) && Tree(a, s.mem, f, d) && Foot(a, s.mem, f, d) <= s.used
    requires !Present(Get(s.mem, f, i)) && Avail(s) >= 1
    ensures var (s1, g) := GetOrCreate(a, s, f, i, user);
            && g != 0 && HasKid(a, s1.mem, f, d, i) && Kid(a, s1.mem, f, i) == g
            && Get(s1.mem, f, i) == NewEntry(a, g, user)
            && |s1.mem| == |s.mem| && s1.used == s.used + {g} && g !in s.used && g < |s.mem| && Sane(s1)
            && Avail(s1) == Avail(s) - 1
            && s1.mem[g] == Zeros() && KidFoot(a, s.mem, f, d, i) == {} && KidFoot(a, s1.mem, f, d, i) == {g}
            && Tree(a, s1.mem, g, d - 1) && Foot(a, s1.mem, g, d - 1) == {g}
            && (forall j: nat :: j != i ==> Get(s1.mem, f, j) == Get(s.mem, f, j))
            && (forall x: nat :: x < |s.mem| && x != f && x != g ==> s1.mem[x] == s.mem[x])
  {
    AllocFacts(s);
    var (s0, g) := AllocFrame(s);
    EntryFacts(a, g, user);
    assert f in Foot(a, s.mem, f, d);
    var (s1, g1) := GetOrCreate(a, s, f, i, user);
    assert !Blocked(a, Get(s.mem, f, i));
    assert s1.mem[g] == Zeros();
    ZeroTree(a, s1.mem, g, d - 1);
  }

  /** get_or_create_table on a table entry: only the user bit of that entry can change. */
  lemma DescendFacts(a: Arch, s: Phys, f: nat, d: Depth, i: nat, user: bool)
    requires d > 1 && i < 512 && Sane(s) && Tree(a, s.mem, f, d) && Foot(a, s.mem, f, d) <= s.used
    requires IsTable(a, Get(s.mem, f, i))
    ensures var (s1, c) := GetOrCreate(a, s, f, i, user);
            && c != 0 && c == Kid(a, s.mem, f, i) && HasKid(a, s1.mem, f, d, i) && Kid(a, s1.mem, f, i) == c
            && Get(s1.mem, f, i) == (if a == X86 && user then Widen(Get(s.mem, f, i)) else Get(s.mem, f, i))
            && |s1.mem| == |s.mem| && s1.used == s.used && Sane(s1)
            && Tree(a, s1.mem, c, d - 1) && Foot(a, s1.mem, c, d - 1) == KidFoot(a, s.mem, f, d, i)
            && (forall j: nat :: j != i ==> Get(s1.mem, f, j) == Get(s.mem, f, j))
            && (forall x: nat :: x < |s.mem| && x != f ==> s1.mem[x] == s.mem[x])
            && Agree(s.mem, s1.mem, KidFoot(a, s.mem, f, d, i))
  {
    TableNotBlocked(a, Get(s.mem, f, i));
    WidenFacts(a, Get(s.mem, f, i));
    assert HasKid(a, s.mem, f, d, i);
    var (s1, c) := GetOrCreate(a, s, f, i, user);
    assert KidFoot(a, s.mem, f, d, i) == Foot(a, s.mem, c, d - 1);
    assert f !in KidFoot(a, s.mem, f, d, i);
    Frame(a, s.mem, s1.mem, c, d - 1);
  }

  // ---------------------------------------------------------------- vmm_map

  ghost predicate MapReady(a: Arch, s: Phys, f: nat, d: Depth, v: U64Value) {
    && Sane(s) && Tree(a, s.mem, f, d) && Foot(a, s.mem, f, d) <= s.used
    && Missing(a, s.mem, f, d, v) <= Avail(s)
  }

  lemma MapLeaf(a: Arch, s: Phys, f: nat, v: U64Value, phys: U64Value, flags: Flags)
    requires Sane(s) && Tree(a, s.mem, f, 1) && Foot(a, s.mem, f, 1) <= s.used
    ensures var t := MapPage(a, s, f, 1, v, phys, flags);
            Grown(a, s, t, f, 1) && Avail(t) == Avail(s)
  {
    var t := MapPage(a, s, f, 1, v, phys, flags);
    assert f in Foot(a, s.mem, f, 1);
    assert forall j: nat :: KidFoot(a, s.mem, f, 1, j) == {} && KidFoot(a, t.mem, f, 1, j) == {};
  }

  lemma MapStopped(a: Arch, s: Phys, f: nat, d: Depth, i: nat, user: bool)
    requires d > 1 && i < 512 && Sane(s) && Tree(a, s.mem, f, d)
    requires Present(Get(s.mem, f, i)) && !IsTable(a, Get(s.mem, f, i))
    ensures GetOrCreate(a, s, f, i, user) == (s, 0) && Grown(a, s, s, f, d)
  {
  }

  lemma DescendMissing(a: Arch, s: Phys, f: nat, d: Depth, v: U64Value, user: bool)
    requires MapReady(a, s, f, d, v) && d > 1 && IsTable(a, Get(s.mem, f, Index(v, d)))
    ensures var (s1, c) := GetOrCreate(a, s, f, Index(v, d), user);
            && MapReady(a, s1, c, d - 1, v) && Missing(a, s1.mem, c, d - 1, v) == Missing(a, s.mem, f, d, v)
            && Avail(s1) == Avail(s)
            && KidFoot(a, s1.mem, f, d, Index(v, d)) == KidFoot(a, s.mem, f, d, Index(v, d)) + (s1.used - s.used)
  {
    var i := Index(v, d);
    DescendFacts(a, s, f, d, i, user);
    var (s1, c) := GetOrCreate(a, s, f, i, user);
    assert KidFoot(a, s.mem, f, d, i) == Foot(a, s.mem, c, d - 1);
    assert KidFoot(a, s1.mem, f, d, i) == Foot(a, s1.mem, c, d - 1);
    KidFootIn(a, s.mem, f, d, i);
    FrameWalk(a, s.mem, s1.mem, c, d - 1, v);
  }

  /** vmm_map keeps the tree a tree, takes exactly the missing tables, and writes nothing else. */
  lemma {:induction false} MapGrows(a: Arch, s: Phys, f: nat, d: Depth, v: U64Value, phys: U64Value, flags: Flags)
    requires MapReady(a, s, f, d, v)
    ensures var t := MapPage(a, s, f, d, v, phys, flags);
            Grown(a, s, t, f, d) && Avail(t) == Avail(s) - Missing(a, s.mem, f, d, v)
    decreases d
  {
    hide Foot, KidFoot, Tree, Index, GetOrCreate, Avail;
    var i := Index(v, d);
    var t := MapPage(a, s, f, d, v, phys, flags);
    if d == 1 {
      MapLeaf(a, s, f, v, phys, flags);
    } else if IsTable(a, Get(s.mem, f, i)) {
      DescendFacts(a, s, f, d, i, UserFlag(flags));
      var (s1, c) := GetOrCreate(a, s, f, i, UserFlag(flags));
      TableNotBlocked(a, Get(s.mem, f, i));
      DescendMissing(a, s, f, d, v, UserFlag(flags));
      MapGrows(a, s1, c, d - 1, v, phys, flags);
      GrownGraft(a, s, s1, t, f, d, i);
    } else if !Present(Get(s.mem, f, i)) {
      CreateFacts(a, s, f, d, i, UserFlag(flags));
      var (s1, g) := GetOrCreate(a, s, f, i, UserFlag(flags));
      ZeroTree(a, s1.mem, g, d - 1);
      MapGrows(a, s1, g, d - 1, v, phys, flags);
      GrownGraft(a, s, s1, t, f, d, i);
    } else {
      MapStopped(a, s, f, d, i, UserFlag(flags));
    }
  }

  /** The walk ends in a block or huge leaf, into which no operation of vmm.c descends. */
  predicate Stops(h: Hit) {
    h.Leaf? && h.level > 1
  }

  /** What vmm_map for v does to the page-map value of u: before and target are the walks of u and v. */
  function Mapped(a: Arch, before: Hit, target: Hit, same: bool, phys: U64Value, flags: Flags): Hit {
    if !same || Stops(target) then before
    else if PresentFlag(flags) then Leaf(1, LeafEntry(a, phys, flags))
    else if a == X86 then Miss else before
  }

  ghost predicate RightsKept(a: Arch, m: Memory, n: Memory, f: nat, d: Depth, u: U64Value) {
    && (GrantsWrite(a, m, f, d, u) ==> GrantsWrite(a, n, f, d, u))
    && (GrantsUser(a, m, f, d, u) && Walk(a, m, f, d, u).Leaf? ==> GrantsUser(a, n, f, d, u))
  }

  /** vmm_map changes the walks of exactly the addresses of v's page, to the new leaf; it withdraws
      no right anywhere, and gives the user bit to every table on the way to a user page. */
  lemma {:induction false} MapWalks(a: Arch, s: Phys, f: nat, d: Depth, v: U64Value, phys: U64Value, flags: Flags,
                                    u: U64Value)
    requires MapReady(a, s, f, d, v)
    ensures var t := MapPage(a, s, f, d, v, phys, flags);
            && Walk(a, t.mem, f, d, u)
               == Mapped(a, Walk(a, s.mem, f, d, u), Walk(a, s.mem, f, d, v), SamePage(u, v, d), phys, flags)
            && (a == X86 ==> RightsKept(a, s.mem, t.mem, f, d, u))
            && (a == X86 && SamePage(u, v, d) && UserFlag(flags) && !Stops(Walk(a, s.mem, f, d, v))
                ==> GrantsUser(a, t.mem, f, d, u))
    decreases d
  {
    hide Foot, KidFoot, Tree, Index, GetOrCreate, Avail, Present, IsTable, Bit1, Bit2, LeafEntry, PresentFlag, UserFlag, Walk,
      GrantsWrite, GrantsUser;
    var i := Index(v, d);
    var t := MapPage(a, s, f, d, v, phys, flags);
    if d == 1 {
      MapLeafWalk(a, s, f, v, phys, flags, u);
    } else if Present(Get(s.mem, f, i)) && !IsTable(a, Get(s.mem, f, i)) {
      MapStopped(a, s, f, d, i, UserFlag(flags));
      StoppedWalk(a, s.mem, f, d, v);
    } else {
      EntryBelow(a, s, f, d, v, UserFlag(flags));
      var (s1, c) := GetOrCreate(a, s, f, i, UserFlag(flags));
      MapGrows(a, s1, c, d - 1, v, phys, flags);
      GrownGraft(a, s, s1, t, f, d, i);
      MapWalks(a, s1, c, d - 1, v, phys, flags, u);
      WalkBelow(a, s, f, d, v, UserFlag(flags), u);
      WalkBelow(a, s, f, d, v, UserFlag(flags), v);
      StepWalk(a, s.mem, t.mem, f, d, i, c, u);
    }
  }

  lemma StoppedWalk(a: Arch, m: Memory, f: nat, d: Depth, v: U64Value)
    requires d > 1 && Present(Get(m, f, Index(v, d))) && !IsTable(a, Get(m, f, Index(v, d)))
    ensures Stops(Walk(a, m, f, d, v))
  {
  }

  /** The state get_or_create_table leaves for the rest of vmm_map, whether it found or made the table. */
  lemma EntryBelow(a: Arch, s: Phys, f: nat, d: Depth, v: U64Value, user: bool)
    requires MapReady(a, s, f, d, v) && d > 1
    requires !(Present(Get(s.mem, f, Index(v, d))) && !IsTable(a, Get(s.mem, f, Index(v, d))))
    ensures var i := Index(v, d);
            var (s1, c) := GetOrCreate(a, s, f, i, user);
            && c != 0 && MapReady(a, s1, c, d - 1, v) && |s1.mem| == |s.mem| && s.used <= s1.used
            && HasKid(a, s1.mem, f, d, i) && Kid(a, s1.mem, f, i) == c
            && (forall j: nat :: j != i ==> Get(s1.mem, f, j) == Get(s.mem, f, j))
            && KidFoot(a, s1.mem, f, d, i) == KidFoot(a, s.mem, f, d, i) + (s1.used - s.used)
            && (forall x: nat :: x < |s.mem| && x != f && x !in KidFoot(a, s1.mem, f, d, i) ==> s1.mem[x] == s.mem[x])
  {
    hide Foot, KidFoot, Tree, Index, GetOrCreate, Avail, Bit1, Bit2;
    var i := Index(v, d);
    if IsTable(a, Get(s.mem, f, i)) {
      DescendFacts(a, s, f, d, i, user);
      DescendMissing(a, s, f, d, v, user);
    } else {
      CreateFacts(a, s, f, d, i, user);
      var (s1, c) := GetOrCreate(a, s, f, i, user);
      ZeroTree(a, s1.mem, c, d - 1);
    }
  }

  /** For addresses through v's entry, walking on from the table get_or_create_table returned is walking
      from f; its entry is writable if the old one was or is new, and has the user bit if that was asked. */
  lemma WalkBelow(a: Arch, s: Phys, f: nat, d: Depth, v: U64Value, user: bool, u: U64Value)
    requires MapReady(a, s, f, d, v) && d > 1
    requires !(Present(Get(s.mem, f, Index(v, d))) && !IsTable(a, Get(s.mem, f, Index(v, d))))
    ensures var (s1, c) := GetOrCreate(a, s, f, Index(v, d), user);
            var e := Get(s1.mem, f, Index(v, d));
            Index(u, d) == Index(v, d) ==>
              && Walk(a, s1.mem, c, d - 1, u) == Walk(a, s.mem, f, d, u)
              && (GrantsWrite(a, s.mem, f, d, u) ==> Bit1(e) && GrantsWrite(a, s1.mem, c, d - 1, u))
              && (a == X86 && GrantsUser(a, s.mem, f, d, u) && Walk(a, s.mem, f, d, u).Leaf? ==>
                    Bit2(e) && GrantsUser(a, s1.mem, c, d - 1, u))
              && (a == X86 && user ==> Bit2(e))
  {
    hide Foot, KidFoot, Tree, Index, GetOrCreate, Avail, Bit1, Bit2;
    var i := Index(v, d);
    if IsTable(a, Get(s.mem, f, i)) {
      DescendFacts(a, s, f, d, i, user);
      DescendWalk(a, s, f, d, i, user, u);
      WidenFacts(a, Get(s.mem, f, i));
    } else {
      CreateFacts(a, s, f, d, i, user);
      var (s1, c) := GetOrCreate(a, s, f, i, user);
      ZeroTree(a, s1.mem, c, d - 1);
      EntryFacts(a, c, user);
    }
  }

  /** Walks from f in n, when entry i leads to c and nothing else under f changed since m. */
  lemma StepWalk(a: Arch, m: Memory, n: Memory, f: nat, d: Depth, i: nat, c: nat, u: U64Value)
    requires d > 1 && i < 512 && Tree(a, m, f, d)
    requires HasKid(a, n, f, d, i) && Kid(a, n, f, i) == c
    requires Agree(m, n, Foot(a, m, f, d) - {f} - KidFoot(a, m, f, d, i))
    requires forall j: nat :: j != i ==> Get(n, f, j) == Get(m, f, j)
    ensures Walk(a, n, f, d, u) == if Index(u, d) == i then Walk(a, n, c, d - 1, u) else Walk(a, m, f, d, u)
    ensures GrantsWrite(a, n, f, d, u) == if Index(u, d) == i then Bit1(Get(n, f, i)) && GrantsWrite(a, n, c, d - 1, u)
                                          else GrantsWrite(a, m, f, d, u)
    ensures GrantsUser(a, n, f, d, u) == if Index(u, d) == i then Bit2(Get(n, f, i)) && GrantsUser(a, n, c, d - 1, u)
                                         else GrantsUser(a, m, f, d, u)
  {
    if Index(u, d) != i {
      GraftWalk(a, m, n, f, d, i, u);
    }
  }

  lemma MapLeafWalk(a: Arch, s: Phys, f: nat, v: U64Value, phys: U64Value, flags: Flags, u: U64Value)
    requires Tree(a, s.mem, f, 1)
    ensures var t := MapPage(a, s, f, 1, v, phys, flags);
            && Walk(a, t.mem, f, 1, u)
               == Mapped(a, Walk(a, s.mem, f, 1, u), Walk(a, s.mem, f, 1, v), SamePage(u, v, 1), phys, flags)
            && RightsKept(a, s.mem, t.mem, f, 1, u) && GrantsUser(a, t.mem, f, 1, u)
  {
    LeafEntryFacts(a, phys, flags);
  }

  lemma DescendWalk(a: Arch, s: Phys, f: nat, d: Depth, i: nat, user: bool, u: U64Value)
    requires d > 1 && i < 512 && Sane(s) && Tree(a, s.mem, f, d) && Foot(a, s.mem, f, d) <= s.used
    requires IsTable(a, Get(s.mem, f, i))
    ensures var (s1, c) := GetOrCreate(a, s, f, i, user);
            && Walk(a, s1.mem, c, d - 1, u) == Walk(a, s.mem, c, d - 1, u)
            && GrantsWrite(a, s1.mem, c, d - 1, u) == GrantsWrite(a, s.mem, c, d - 1, u)
            && GrantsUser(a, s1.mem, c, d - 1, u) == GrantsUser(a, s.mem, c, d - 1, u)
  {
    DescendFacts(a, s, f, d, i, user);
    var (s1, c) := GetOrCreate(a, s, f, i, user);
    assert KidFoot(a, s.mem, f, d, i) == Foot(a, s.mem, c, d - 1);
    FrameWalk(a, s.mem, s1.mem, c, d - 1, u);
  }

  // ---------------------------------------------------------------- vmm_unmap

  /** vmm_unmap removes v's page and nothing else, and writes one entry of a table of the tree at most. */
  lemma {:induction false} UnmapKeeps(a: Arch, m: Memory, f: nat, d: Depth, v: U64Value)
    requires Tree(a, m, f, d)
    ensures var n := UnmapPage(a, m, f, d, v);
            && |n| == |m| && Tree(a, n, f, d) && Foot(a, n, f, d) == Foot(a, m, f, d)
            && (forall x: nat :: x < |m| && x !in Foot(a, m, f, d) ==> n[x] == m[x])
    decreases d
  {
    var i := Index(v, d);
    var n := UnmapPage(a, m, f, d, v);
    if d == 1 {
      UnmapLeaf(a, m, f, v);
    } else if IsTable(a, Get(m, f, i)) {
      UnmapKeeps(a, m, Kid(a, m, f, i), d - 1, v);
      RewriteKid(a, m, n, f, d, i);
    }
  }

  lemma UnmapLeaf(a: Arch, m: Memory, f: nat, v: U64Value)
    requires Tree(a, m, f, 1)
    ensures var n := UnmapPage(a, m, f, 1, v);
            Tree(a, n, f, 1) && Foot(a, n, f, 1) == Foot(a, m, f, 1)
            && forall x: nat :: x < |m| && x !in Foot(a, m, f, 1) ==> n[x] == m[x]
  {
    var n := UnmapPage(a, m, f, 1, v);
    assert f in Foot(a, m, f, 1);
    assert forall j: nat :: KidFoot(a, m, f, 1, j) == {} && KidFoot(a, n, f, 1, j) == {};
  }

  /** A subtree rewritten in place, with the same frames, leaves the tree around it a tree. */
  lemma RewriteKid(a: Arch, m: Memory, n: Memory, f: nat, d: Depth, i: nat)
    requires d > 1 && i < 512 && Tree(a, m, f, d) && IsTable(a, Get(m, f, i)) && |n| == |m|
    requires var c := Kid(a, m, f, i);
             Tree(a, n, c, d - 1) && Foot(a, n, c, d - 1) == Foot(a, m, c, d - 1)
             && forall x: nat :: x < |m| && x !in Foot(a, m, c, d - 1) ==> n[x] == m[x]
    ensures Tree(a, n, f, d) && Foot(a, n, f, d) == Foot(a, m, f, d) && n[f] == m[f]
    ensures forall x: nat :: x < |m| && x !in Foot(a, m, f, d) ==> n[x] == m[x]
    ensures Agree(m, n, Foot(a, m, f, d) - {f} - KidFoot(a, m, f, d, i))
  {
    assert HasKid(a, m, f, d, i) && KidFoot(a, m, f, d, i) == Foot(a, m, Kid(a, m, f, i), d - 1);
    KidFootIn(a, m, f, d, i);
    assert f !in KidFoot(a, m, f, d, i) && n[f] == m[f];
    assert forall j: nat :: Get(n, f, j) == Get(m, f, j);
    assert KidFoot(a, n, f, d, i) == Foot(a, n, Kid(a, m, f, i), d - 1);
    TableNotBlocked(a, Get(n, f, i));
    Graft(a, m, n, f, d, i);
  }

  /** What vmm_unmap for v does to the page-map value of u. */
  function Unmapped(before: Hit, target: Hit, same: bool): Hit {
    if same && !Stops(target) then Miss else before
  }

  lemma {:induction false} UnmapWalks(a: Arch, m: Memory, f: nat, d: Depth, v: U64Value, u: U64Value)
    requires Tree(a, m, f, d)
    ensures var n := UnmapPage(a, m, f, d, v);
            && Walk(a, n, f, d, u) == Unmapped(Walk(a, m, f, d, u), Walk(a, m, f, d, v), SamePage(u, v, d))
            && GrantsWrite(a, n, f, d, u) == GrantsWrite(a, m, f, d, u)
            && GrantsUser(a, n, f, d, u) == GrantsUser(a, m, f, d, u)
    decreases d
  {
    hide Foot, KidFoot, Index;
    var i := Index(v, d);
    var n := UnmapPage(a, m, f, d, v);
    if d == 1 {
      NilFacts(a);
    } else if IsTable(a, Get(m, f, i)) {
      assert HasKid(a, m, f, d, i);
      UnmapWalks(a, m, Kid(a, m, f, i), d - 1, v, u);
      UnmapKeeps(a, m, Kid(a, m, f, i), d - 1, v);
      RewriteKid(a, m, n, f, d, i);
      if Index(u, d) != i {
        GraftWalk(a, m, n, f, d, i, u);
      }
    }
  }

  // ---------------------------------------------------------------- frames are only taken

  /** With frames enough or not, mapping a page gives no frame back. */
  lemma {:induction false} MapTakes(a: Arch, s: Phys, f: nat, d: Depth, v: U64Value, phys: U64Value, flags: Flags)
    ensures s.used <= MapPage(a, s, f, d, v, phys, flags).used
    decreases d
  {
    hide Index, LeafEntry, Blocked, Present, FirstRun;
    if d > 1 {
      var (s1, c) := GetOrCreate(a, s, f, Index(v, d), UserFlag(flags));
      if c != 0 {
        MapTakes(a, s1, c, d - 1, v, phys, flags);
      }
    }
  }
}

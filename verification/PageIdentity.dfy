/** paging_identity_map of arch/x86_64/mm/paging.c: 2MB identity leaves added to the live (kernel) tables. */
module PageIdentity {
  import opened Arith
  import opened Pmm
  import opened PageTable
  import opened PageAddress
  import opened PageTree
  import opened PageOps
  import opened PageClone

  const BIG: nat := 0x20_0000

  /** ensure_table: like get_or_create_table, but it never looks at the huge bit. */
  function EnsureTable(s: Phys, f: nat, i: nat): (Phys, nat) {
    var w := Get(s.mem, f, i);
    if !Present(w) then
      var (s1, g) := AllocFrame(s);
      var m := Put(Clear(s1.mem, g), f, i, NewEntry(X86, g, false));
      (s1.(mem := m), FrameOf(X86, Get(m, f, i)))
    else (s, FrameOf(X86, w))
  }

  /** addr | PRESENT | WRITABLE | HUGE, for a 2MB-aligned addr; nothing is masked. */
  function BigEntry(addr: U64Value): Word {
    Word(addr / 4096 % 0x100_0000_0000, 0x83, addr / 0x10_0000_0000_0000)
  }

  /** One turn of the loop, from depth d down to the page directory. */
  function IdentityPage(s: Phys, f: nat, d: Depth, addr: U64Value): Phys
    requires d > 1
    decreases d
  {
    var i := Index(addr, d);
    if d == 2 then
      if Present(Get(s.mem, f, i)) then s else s.(mem := Put(s.mem, f, i, BigEntry(addr)))
    else
      var (s1, c) := EnsureTable(s, f, i);
      IdentityPage(s1, c, d - 1, addr)
  }

  /** The whole loop, from addr on in steps of 2MB. */
  function IdentityRange(s: Phys, root: nat, addr: nat, end: nat): Phys
    requires end <= U64
    decreases end - addr
  {
    if addr >= end then s else IdentityRange(IdentityPage(s, root, 4, addr), root, addr + BIG, end)
  }

  // ---------------------------------------------------------------- what a turn depends on

  /** The page-directory entry that covers u is absent, or would be in a table not yet there. */
  predicate PdAbsent(m: Memory, f: nat, d: Depth, u: U64Value)
    requires d > 1
    decreases d
  {
    var w := Get(m, f, Index(u, d));
    !Present(w) || (d > 2 && IsTable(X86, w) && PdAbsent(m, FrameOf(X86, w), d - 1, u))
  }

  /** A leaf above the page directory: ensure_table would take its data for a table. */
  predicate HighLeaf(h: Hit) {
    h.Leaf? && h.level > 2
  }

  predicate SameBig(u: U64Value, v: U64Value, d: Depth)
    requires d > 1
    decreases d
  {
    Index(u, d) == Index(v, d) && (d == 2 || SameBig(u, v, d - 1))
  }

  /** The tables a turn has to create. */
  function MissingBig(m: Memory, f: nat, d: Depth, addr: U64Value): nat
    requires d > 1
    decreases d
  {
    var w := Get(m, f, Index(addr, d));
    if d == 2 then 0 else if IsTable(X86, w) then MissingBig(m, FrameOf(X86, w), d - 1, addr)
    else if Present(w) then 0 else d - 2
  }

  ghost predicate BigReady(s: Phys, f: nat, d: Depth, addr: U64Value)
    requires d > 1
  {
    && Sane(s) && Tree(X86, s.mem, f, d) && Foot(X86, s.mem, f, d) <= s.used
    && !HighLeaf(Walk(X86, s.mem, f, d, addr)) && MissingBig(s.mem, f, d, addr) <= Avail(s)
  }

  lemma EnsureIsGet(s: Phys, f: nat, d: Depth, i: nat)
    requires d > 1 && i < 512 && Tree(X86, s.mem, f, d) && (Present(Get(s.mem, f, i)) ==> IsTable(X86, Get(s.mem, f, i)))
    ensures EnsureTable(s, f, i) == GetOrCreate(X86, s, f, i, false)
  {
  }

  lemma FrameBig(m: Memory, n: Memory, f: nat, d: Depth, u: U64Value)
    requires d > 1 && Tree(X86, m, f, d) && Agree(m, n, Foot(X86, m, f, d))
    ensures PdAbsent(n, f, d, u) == PdAbsent(m, f, d, u) && MissingBig(n, f, d, u) == MissingBig(m, f, d, u)
    decreases d
  {
    var i := Index(u, d);
    assert n[f] == m[f];
    FootParts(X86, m, f, d, i);
    if d > 2 && HasKid(X86, m, f, d, i) {
      FrameBig(m, n, Kid(X86, m, f, i), d - 1, u);
    }
  }

  lemma ZeroBig(m: Memory, g: nat, d: Depth)
    requires d > 1 && 0 < g < |m| && m[g] == Zeros()
    ensures forall u :: PdAbsent(m, g, d, u) && MissingBig(m, g, d, u) == d - 2
  {
    NilFacts(X86);
  }

  lemma BigDescend(s: Phys, f: nat, d: Depth, addr: U64Value)
    requires d > 2 && BigReady(s, f, d, addr)
    ensures var i := Index(addr, d);
            var (s1, c) := EnsureTable(s, f, i);
            && EnsureTable(s, f, i) == GetOrCreate(X86, s, f, i, false)
            && BigReady(s1, c, d - 1, addr) && HasKid(X86, s1.mem, f, d, i) && Kid(X86, s1.mem, f, i) == c
            && |s1.mem| == |s.mem| && s.used <= s1.used && Bit1(Get(s1.mem, f, i)) == (HasKid(X86, s.mem, f, d, i) ==> Bit1(Get(s.mem, f, i)))
            && (HasKid(X86, s.mem, f, d, i) ==> Get(s1.mem, f, i) == Get(s.mem, f, i) && s1 == s)
            && (forall j: nat :: j != i ==> Get(s1.mem, f, j) == Get(s.mem, f, j))
            && KidFoot(X86, s1.mem, f, d, i) == KidFoot(X86, s.mem, f, d, i) + (s1.used - s.used)
            && (forall x: nat :: x < |s.mem| && x != f && x !in KidFoot(X86, s1.mem, f, d, i) ==> s1.mem[x] == s.mem[x])
            && (!HasKid(X86, s.mem, f, d, i) ==> !Present(Get(s.mem, f, i)) && 0 < c < |s1.mem| && s1.mem[c] == Zeros())
            && Avail(s1) - MissingBig(s1.mem, c, d - 1, addr) == Avail(s) - MissingBig(s.mem, f, d, addr)
  {
    var i := Index(addr, d);
    FootParts(X86, s.mem, f, d, i);
    assert Present(Get(s.mem, f, i)) ==> IsTable(X86, Get(s.mem, f, i));
    EnsureIsGet(s, f, d, i);
    var (s1, c) := EnsureTable(s, f, i);
    if HasKid(X86, s.mem, f, d, i) {
      assert s1 == s;
    } else {
      CreateFacts(X86, s, f, d, i, false);
      EntryFacts(X86, c, false);
      ZeroTree(X86, s1.mem, c, d - 1);
      ZeroBig(s1.mem, c, d - 1);
    }
  }

  lemma {:induction false} IdentityGrows(s: Phys, f: nat, d: Depth, addr: U64Value)
    requires d > 1 && BigReady(s, f, d, addr)
    ensures var t := IdentityPage(s, f, d, addr);
            Grown(X86, s, t, f, d) && Avail(t) == Avail(s) - MissingBig(s.mem, f, d, addr)
    decreases d
  {
    hide Foot, KidFoot, Tree, Index, EnsureTable, Free;
    var t := IdentityPage(s, f, d, addr);
    if d == 2 {
      IdentityLeaf(s, f, addr);
    } else {
      BigDescend(s, f, d, addr);
      var (s1, c) := EnsureTable(s, f, Index(addr, d));
      IdentityGrows(s1, c, d - 1, addr);
      GrownGraft(X86, s, s1, t, f, d, Index(addr, d));
    }
  }

  lemma IdentityLeaf(s: Phys, f: nat, addr: U64Value)
    requires Sane(s) && Tree(X86, s.mem, f, 2) && Foot(X86, s.mem, f, 2) <= s.used
    ensures var t := IdentityPage(s, f, 2, addr);
            && Grown(X86, s, t, f, 2) && t.used == s.used
            && Agree(s.mem, t.mem, Foot(X86, s.mem, f, 2) - {f} - KidFoot(X86, s.mem, f, 2, Index(addr, 2)))
            && (forall j: nat :: j != Index(addr, 2) ==> Get(t.mem, f, j) == Get(s.mem, f, j))
  {
    hide Foot, KidFoot, Tree;
    var i := Index(addr, 2);
    var t := IdentityPage(s, f, 2, addr);
    FootParts(X86, s.mem, f, 2, i);
    FootParts(X86, t.mem, f, 2, i);
    FootInRange(X86, s.mem, f, 2);
    if Present(Get(s.mem, f, i)) {
      assert t == s;
    } else {
      Graft(X86, s.mem, t.mem, f, 2, i);
    }
  }

  /** A turn turns an absent 2MB unit into an identity leaf and changes no other walk and no right. */
  lemma {:induction false} IdentityWalks(s: Phys, f: nat, d: Depth, addr: U64Value, u: U64Value)
    requires d > 1 && BigReady(s, f, d, addr)
    ensures var t := IdentityPage(s, f, d, addr);
            && Walk(X86, t.mem, f, d, u)
               == (if SameBig(u, addr, d) && PdAbsent(s.mem, f, d, u) then Leaf(2, BigEntry(addr)) else Walk(X86, s.mem, f, d, u))
            && PdAbsent(t.mem, f, d, u) == (PdAbsent(s.mem, f, d, u) && !SameBig(u, addr, d))
            && GrantsWrite(X86, t.mem, f, d, u) == GrantsWrite(X86, s.mem, f, d, u)
            && RightsKept(X86, s.mem, t.mem, f, d, u)
    decreases d
  {
    hide Foot, KidFoot, Tree, Index, EnsureTable, Free;
    var i := Index(addr, d);
    var t := IdentityPage(s, f, d, addr);
    if d == 2 {
      IdentityLeaf(s, f, addr);
      if Index(u, 2) != i {
        GraftWalk(X86, s.mem, t.mem, f, 2, i, u);
      } else {
        assert Foot(X86, s.mem, f, 2) <= s.used;
        IdentityLeafWalk(s, f, addr, u);
      }
    } else {
      BigDescend(s, f, d, addr);
      var (s1, c) := EnsureTable(s, f, i);
      IdentityGrows(s1, c, d - 1, addr);
      GrownGraft(X86, s, s1, t, f, d, i);
      IdentityWalks(s1, c, d - 1, addr, u);
      StepWalk(X86, s.mem, t.mem, f, d, i, c, u);
      if Index(u, d) != i {
        GraftBig(s.mem, t.mem, f, d, i, u);
      } else if !HasKid(X86, s.mem, f, d, i) {
        ZeroTree(X86, s1.mem, c, d - 1);
        ZeroBig(s1.mem, c, d - 1);
      }
    }
  }

  lemma IdentityLeafWalk(s: Phys, f: nat, addr: U64Value, u: U64Value)
    requires Tree(X86, s.mem, f, 2) && Index(u, 2) == Index(addr, 2)
    ensures var t := IdentityPage(s, f, 2, addr);
            && Walk(X86, t.mem, f, 2, u)
               == (if PdAbsent(s.mem, f, 2, u) then Leaf(2, BigEntry(addr)) else Walk(X86, s.mem, f, 2, u))
            && !PdAbsent(t.mem, f, 2, u) && GrantsWrite(X86, t.mem, f, 2, u) == GrantsWrite(X86, s.mem, f, 2, u)
            && RightsKept(X86, s.mem, t.mem, f, 2, u)
  {
  }

  lemma GraftBig(m: Memory, n: Memory, f: nat, d: Depth, i: nat, u: U64Value)
    requires d > 1 && i < 512 && Tree(X86, m, f, d) && Index(u, d) != i
    requires Agree(m, n, Foot(X86, m, f, d) - {f} - KidFoot(X86, m, f, d, i))
    requires forall j: nat :: j != i ==> Get(n, f, j) == Get(m, f, j)
    ensures PdAbsent(n, f, d, u) == PdAbsent(m, f, d, u)
  {
    var j := Index(u, d);
    FootParts(X86, m, f, d, j);
    if d > 2 && HasKid(X86, m, f, d, j) {
      FrameBig(m, n, Kid(X86, m, f, j), d - 1, u);
    }
  }

  // ---------------------------------------------------------------- the loop

  /** The hardware finds u at physical address u, and lets the kernel write there: W on the leaf and on every
      table entry of the walk. */
  predicate IdentityHit(m: Memory, root: nat, u: U64Value) {
    var h := Walk(X86, m, root, 4, u);
    h.Leaf? && HardwareTranslate(X86, h, u) == Some(u as nat) && Bit1(h.word) && GrantsWrite(X86, m, root, 4, u)
  }

  /** What the header promises for u can be kept: its directory entry is absent, below writable tables, or is
      an identity leaf with W already. */
  predicate CanIdentify(m: Memory, root: nat, u: U64Value) {
    (PdAbsent(m, root, 4, u) && GrantsWrite(X86, m, root, 4, u)) || IdentityHit(m, root, u)
  }

  lemma {:induction false} SameBigIsSamePage(u: U64Value, v: U64Value, d: Depth)
    requires d > 1
    ensures SameBig(u, v, d) <==> SamePage(u / 512, v / 512, d - 1)
    decreases d
  {
    assert EntrySpan(d) == 512 * EntrySpan(d - 1);
    QuotientOfQuotient(u, 512, EntrySpan(d - 1));
    QuotientOfQuotient(v, 512, EntrySpan(d - 1));
    if d > 2 {
      SameBigIsSamePage(u, v, d - 1);
    }
  }

  /** Within the 48 translated bits, the units of the page directory are the 2MB intervals. */
  lemma SameBigIff(u: U64Value, v: U64Value)
    requires u < 0x1_0000_0000_0000 && v < 0x1_0000_0000_0000
    ensures SameBig(u, v, 4) <==> u / BIG == v / BIG
  {
    SameBigIsSamePage(u, v, 4);
    SamePageIff(u / 512, v / 512, 3);
    BigNumber(u);
    BigNumber(v);
  }

  lemma BigNumber(u: U64Value)
    requires u < 0x1_0000_0000_0000
    ensures u / 512 / 4096 % Pages(3) == u / BIG
  {
    QuotientOfQuotient(u, 512, 4096);
    assert u / BIG < 0x800_0000;
  }

  lemma BigEntryHit(addr: U64Value, u: U64Value)
    requires addr % BIG == 0 && u / BIG == addr / BIG && u < 0x1_0000_0000_0000
    ensures HardwareTranslate(X86, Leaf(2, BigEntry(addr)), u) == Some(u as nat) && Bit1(BigEntry(addr))
  {
    var k := addr / BIG;
    assert addr == k * BIG && u == k * BIG + u % BIG;
    BigFrame(k);
  }

  lemma BigFrame(k: nat)
    requires k < 0x800_0000
    ensures k * BIG / 4096 % 0x100_0000_0000 == k * 512 && k * 512 * 4096 / BIG == k
  {
    assert k * BIG == k * 512 * 4096;
  }

  /** The preconditions of every turn: no leaf above the page directories, and frames for the tables. */
  ghost predicate RangeEnabled(s: Phys, root: nat, addr: nat, end: nat)
    requires end <= U64
    decreases end - addr
  {
    addr < end ==>
      && !HighLeaf(Walk(X86, s.mem, root, 4, addr)) && MissingBig(s.mem, root, 4, addr) <= Avail(s)
      && RangeEnabled(IdentityPage(s, root, 4, addr), root, addr + BIG, end)
  }

  /** What the loop promises about one address: inside the range it ends identity-mapped and writable exactly
      when its directory entry was absent below writable tables or it was so already; elsewhere nothing changes. */
  ghost predicate RangePromise(m: Memory, n: Memory, root: nat, addr: nat, end: nat, u: U64Value) {
    && (addr <= u < end ==> (IdentityHit(n, root, u) <==> CanIdentify(m, root, u)))
    && (u < addr || end <= u < 0x1_0000_0000_0000 || !PdAbsent(m, root, 4, u) ==>
          Walk(X86, n, root, 4, u) == Walk(X86, m, root, 4, u))
    && (Walk(X86, n, root, 4, u) == Walk(X86, m, root, 4, u)
        || (exists big: U64Value :: Walk(X86, n, root, 4, u) == Leaf(2, BigEntry(big))))
    && GrantsWrite(X86, n, root, 4, u) == GrantsWrite(X86, m, root, 4, u)
    && RightsKept(X86, m, n, root, 4, u)
  }

  lemma {:induction false} IdentityRangeFacts(s: Phys, root: nat, addr: nat, end: nat)
    requires addr % BIG == 0 && end % BIG == 0 && addr <= end <= 0x1_0000_0000_0000
    requires Sane(s) && Tree(X86, s.mem, root, 4) && Foot(X86, s.mem, root, 4) <= s.used
    requires RangeEnabled(s, root, addr, end)
    ensures var t := IdentityRange(s, root, addr, end);
            Grown(X86, s, t, root, 4) && forall u :: RangePromise(s.mem, t.mem, root, addr, end, u)
    decreases end - addr
  {
    hide Foot, Tree, Walk, RangePromise, IdentityPage, MissingBig, HighLeaf, Free;
    if addr < end {
      IdentityGrows(s, root, 4, addr);
      var s1 := IdentityPage(s, root, 4, addr);
      IdentityRangeFacts(s1, root, addr + BIG, end);
      var t := IdentityRange(s1, root, addr + BIG, end);
      GrownTwice(X86, s, s1, t, root, 4);
      forall u
        ensures RangePromise(s.mem, t.mem, root, addr, end, u)
      {
        RangeStep(s, root, addr, end, t, u);
      }
    } else {
      RangeNothing(s, root, addr, end);
    }
  }

  lemma RangeNothing(s: Phys, root: nat, addr: nat, end: nat)
    requires addr >= end && Sane(s) && Tree(X86, s.mem, root, 4)
    ensures Grown(X86, s, s, root, 4) && forall u :: RangePromise(s.mem, s.mem, root, addr, end, u)
  {
  }

  lemma RangeStep(s: Phys, root: nat, addr: nat, end: nat, t: Phys, u: U64Value)
    requires addr % BIG == 0 && end % BIG == 0 && addr < end <= 0x1_0000_0000_0000
    requires BigReady(s, root, 4, addr)
    requires RangePromise(IdentityPage(s, root, 4, addr).mem, t.mem, root, addr + BIG, end, u)
    ensures RangePromise(s.mem, t.mem, root, addr, end, u)
  {
    hide Walk, PdAbsent, SameBig, IdentityPage, GrantsWrite, GrantsUser, HardwareTranslate, BigEntry, BigReady;
    IdentityWalks(s, root, 4, addr, u);
    if u < 0x1_0000_0000_0000 {
      SameBigIff(u, addr);
      SameUnit(u, addr);
      if u / BIG == addr / BIG {
        BigEntryHit(addr, u);
      }
    }
  }

  lemma SameUnit(u: nat, addr: nat)
    requires addr % BIG == 0
    ensures u / BIG == addr / BIG <==> addr <= u < addr + BIG
  {
  }
}

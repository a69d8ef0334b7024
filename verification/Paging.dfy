/** arch/x86_64/mm/paging.c as it runs: 2MB identity leaves written into the live tables. */
module Paging {
  import opened Arith
  import opened Pmm
  import opened PageTable
  import opened PageOps
  import opened PageIdentity
  import opened Vmm

  /** ALIGN_DOWN(phys, 2MB) and ALIGN_UP(phys + size, 2MB), in 64-bit arithmetic. */
  function BigStart(phys: U64Value): U64Value {
    phys / BIG * BIG
  }

  function BigEnd(phys: U64Value, size: U64Value): U64Value {
    ((phys + size) % U64 + BIG - 1) % U64 / BIG * BIG
  }

  class LiveTables {
    const machine: Machine
    /** The frame CR3 names. */
    const root: nat

    constructor (machine: Machine, root: nat)
      ensures this.machine == machine && this.root == root
    {
      this.machine, this.root := machine, root;
    }

    method Ensure(parent: nat, index: nat) returns (table: nat)
      requires machine.Valid() && index < 512
      modifies machine`mem, machine.pmm`freeFrames, machine.pmm.bitmap
      ensures machine.Valid()
      ensures (machine.State(), table) == EnsureTable(old(machine.State()), parent, index)
    {
      if !Present(Get(machine.mem, parent, index)) {
        var frame := machine.Alloc();
        machine.ZeroedTable(frame);
        machine.mem := Put(machine.mem, parent, index, Word(frame, 3, 0));
      }
      return FrameOf(X86, Get(machine.mem, parent, index));
    }

    method IdentityMap(phys: U64Value, size: U64Value)
      requires machine.Valid()
      modifies machine`mem, machine.pmm`freeFrames, machine.pmm.bitmap
      ensures machine.Valid()
      ensures machine.State() == IdentityRange(old(machine.State()), root, BigStart(phys), BigEnd(phys, size))
    {
      hide EnsureTable, Index, BigEntry;
      var addr: nat := phys / BIG * BIG;
      var end := ((phys + size) % U64 + BIG - 1) % U64 / BIG * BIG;
      while addr < end
        invariant machine.Valid()
        invariant IdentityRange(machine.State(), root, addr, end) == IdentityRange(old(machine.State()), root, BigStart(phys), end)
        decreases end - addr
      {
        ghost var before := machine.State();
        var pdp := Ensure(root, Index(addr, 4));
        var pd := Ensure(pdp, Index(addr, 3));
        var i := Index(addr, 2);
        if !Present(Get(machine.mem, pd, i)) {
          machine.mem := Put(machine.mem, pd, i, BigEntry(addr));
        }
        assert machine.State() == IdentityPage(before, root, 4, addr);
        addr := addr + BIG;
      }
    }
  }

  /** paging_identity_map over any range below 2^48 where no leaf above the page directories stands in the way:
      an address of [phys, phys+size) ends present, writable and mapped to itself exactly when its directory entry
      was absent below writable tables or it was so already. The tables are still a tree of their own frames,
      and every address whose directory entry was present walks as before. */
  lemma IdentityMapFacts(s: Phys, root: nat, phys: U64Value, size: U64Value)
    requires phys + size + BIG <= 0x1_0000_0000_0000
    requires Sane(s) && Tree(X86, s.mem, root, 4) && Foot(X86, s.mem, root, 4) <= s.used
    requires PageIdentity.RangeEnabled(s, root, BigStart(phys), BigEnd(phys, size))
    ensures var t := IdentityRange(s, root, BigStart(phys), BigEnd(phys, size));
            && Grown(X86, s, t, root, 4)
            && (forall u: U64Value :: phys <= u < phys + size ==> (IdentityHit(t.mem, root, u) <==> CanIdentify(s.mem, root, u)))
            && (forall u: U64Value :: !PdAbsent(s.mem, root, 4, u) ==> Walk(X86, t.mem, root, 4, u) == Walk(X86, s.mem, root, 4, u))
  {
    hide Foot, Tree, Walk, PdAbsent, IdentityHit, CanIdentify, IdentityRange, Grown, PageIdentity.RangeEnabled;
    BigBounds(phys, size);
    IdentityRangeFacts(s, root, BigStart(phys), BigEnd(phys, size));
    var t := IdentityRange(s, root, BigStart(phys), BigEnd(phys, size));
    forall u: U64Value
      ensures phys <= u < phys + size ==> (IdentityHit(t.mem, root, u) <==> CanIdentify(s.mem, root, u))
      ensures !PdAbsent(s.mem, root, 4, u) ==> Walk(X86, t.mem, root, 4, u) == Walk(X86, s.mem, root, 4, u)
    {
      assert RangePromise(s.mem, t.mem, root, BigStart(phys), BigEnd(phys, size), u);
    }
  }

  lemma BigBounds(phys: U64Value, size: U64Value)
    requires phys + size + BIG <= 0x1_0000_0000_0000
    ensures BigStart(phys) % BIG == 0 && BigEnd(phys, size) % BIG == 0
    ensures BigStart(phys) <= phys < BigStart(phys) + 0x20_0000
    ensures phys + size <= BigEnd(phys, size) < phys + size + 0x20_0000 && BigEnd(phys, size) <= 0x1_0000_0000_0000
    ensures BigStart(phys) <= BigEnd(phys, size)
  {
    var x := phys + size;
    assert x % U64 == x && (x + BIG - 1) % U64 == x + BIG - 1;
    QuotientUnique(phys / BIG * BIG, BIG, phys / BIG, 0);
    QuotientUnique((x + BIG - 1) / BIG * BIG, BIG, (x + BIG - 1) / BIG, 0);
  }
}

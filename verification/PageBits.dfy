/** The 64-bit words vmm.c and paging.c store, bit by bit. */
module PageBits {
  import opened Arith
  import opened Pmm
  import opened PageTable
  import opened PageAddress
  import opened PageOps
  import opened PageRuns
  import opened PageTheorems
  import opened PageIdentity
  import opened PageBoot
  import opened PhysBytes

  /** 2 to the k. */
  function Two(k: nat): (p: nat)
    ensures p > 0
  {
    if k == 0 then 1 else 2 * Two(k - 1)
  }

  /** Bit k of n is set. */
  predicate BitOf(n: nat, k: nat) {
    n / Two(k) % 2 == 1
  }

  // ---------------------------------------------------------------- fields

  lemma {:induction false} TwoSum(i: nat, j: nat)
    ensures Two(i + j) == Two(i) * Two(j)
    decreases j
  {
    if j > 0 {
      TwoSum(i, j - 1);
      assert Two(i + j) == 2 * Two(i + j - 1);
    }
  }

  /** Below bit m only the low part counts. */
  lemma BitLow(x: nat, m: nat, low: nat, k: nat)
    requires low < Two(m) && k < m
    ensures BitOf(x * Two(m) + low, k) == BitOf(low, k)
  {
    var c := Two(m - k - 1);
    TwoSum(k, m - k);
    assert Two(m - k) == 2 * c;
    var p := Two(k);
    assert Two(m) == p * (2 * c);
    SplitLow(x, p, c, low);
  }

  lemma SplitLow(x: nat, p: nat, c: nat, low: nat)
    requires p > 0
    ensures (x * (p * (2 * c)) + low) / p % 2 == low / p % 2
  {
    Divided(low, p);
    Gather(x, p, c, low / p, low % p);
    HalfOf(x * (p * (2 * c)) + low, p, x * c, low / p, low % p);
  }

  lemma Gather(x: nat, p: nat, c: nat, q: nat, r: nat)
    ensures x * (p * (2 * c)) + (q * p + r) == (2 * (x * c) + q) * p + r
  {
    assert x * (p * (2 * c)) == (2 * (x * c)) * p;
  }

  lemma HalfOf(n: nat, p: nat, z: nat, q: nat, r: nat)
    requires r < p && n == (2 * z + q) * p + r
    ensures n / p % 2 == q % 2
  {
    QuotientUnique(n, p, 2 * z + q, r);
  }

  /** From bit m on only the high part counts. */
  lemma BitHigh(x: nat, m: nat, low: nat, k: nat)
    requires low < Two(m) && k >= m
    ensures BitOf(x * Two(m) + low, k) == BitOf(x, k - m)
  {
    TwoSum(m, k - m);
    QuotientOfQuotient(x * Two(m) + low, Two(m), Two(k - m));
    QuotientUnique(x * Two(m) + low, Two(m), x, low);
  }

  lemma NoBit(n: nat, m: nat, k: nat)
    requires n < Two(m) && k >= m
    ensures !BitOf(n, k)
  {
    BitHigh(0, m, n, k);
    assert 0 / Two(k - m) == 0;
  }

  lemma Sizes()
    ensures Two(2) == 4 && Two(3) == 8 && Two(12) == 0x1000 && Two(36) == 0x10_0000_0000 && Two(40) == 0x100_0000_0000
  {
    assert Two(4) == 16 && Two(8) == 256;
    TwoSum(12, 12);
    TwoSum(24, 12);
    TwoSum(36, 4);
  }

  /** The bits of a word by field. */
  lemma WordBits(w: Word, k: nat)
    ensures BitOf(Value(w), k)
        <==> if k < 12 then BitOf(w.low, k) else if k < 52 then BitOf(w.frame, k - 12) else BitOf(w.high, k - 52)
  {
    Sizes();
    var upper := w.frame + w.high * Two(40);
    assert Value(w) == upper * Two(12) + w.low by { assert Value(w) == w.low + (w.frame + w.high * 0x100_0000_0000) * 4096; }
    if k < 12 {
      BitLow(upper, 12, w.low, k);
    } else {
      BitHigh(upper, 12, w.low, k);
      if k < 52 { BitLow(w.high, 40, w.frame, k - 12); } else { BitHigh(w.high, 40, w.frame, k - 12); }
    }
  }

  /** A remainder keeps the bits below the modulus and has no others. */
  lemma BitsMod(n: nat, m: nat, k: nat)
    ensures BitOf(n % Two(m), k) <==> k < m && BitOf(n, k)
  {
    hide BitOf, Two;
    Divided(n, Two(m));
    if k < m {
      BitLow(n / Two(m), m, n % Two(m), k);
    } else {
      NoBit(n % Two(m), m, k);
    }
  }

  /** phys & ADDR_MASK. */
  lemma FrameBits(a: Arch, phys: U64Value, k: nat)
    requires k >= 12
    ensures BitOf(PhysFrame(a, phys), k - 12) <==> k < (if a == X86 then 52 else 48) && BitOf(phys, k)
  {
    Sizes();
    var x := phys / 4096;
    BitsMod(x, if a == X86 then 40 else 36, k - 12);
    assert phys == x * Two(12) + phys % 4096;
    BitHigh(x, 12, phys % 4096, k);
  }

  // ---------------------------------------------------------------- the words stored

  /** The bits of a leaf: the frame of phys; on x86_64 PRESENT, WRITABLE and USER as in flags; on AArch64 a valid
      page descriptor of normal memory (AttrIndx 1), inner shareable, accessed, AP[1] for user access and AP[2]
      for read-only. */
  predicate LeafBit(a: Arch, phys: U64Value, flags: Flags, k: nat) {
    match a
    case X86 => (12 <= k < 52 && BitOf(phys, k)) || (k < 3 && BitOf(flags, k))
    case A64 => (12 <= k < 48 && BitOf(phys, k)) || k == 0 || k == 1 || k == 2 || k == 8 || k == 9 || k == 10
                || (k == 6 && BitOf(flags, 2)) || (k == 7 && !BitOf(flags, 1))
  }

  lemma FlagBits(flags: Flags)
    ensures BitOf(flags, 0) == PresentFlag(flags) && BitOf(flags, 1) == WritableFlag(flags) && BitOf(flags, 2) == UserFlag(flags)
  {
    assert Two(0) == 1 && Two(1) == 2 && Two(2) == 4;
  }

  /** The twelve low bits of an AArch64 leaf, by the two flags that matter. */
  lemma LowLeafBits(user: bool, writable: bool, low: nat, k: nat)
    requires k < 12
    requires low == 0x707 + (if user then (if writable then 0x40 else 0xC0) else (if writable then 0 else 0x80))
    ensures BitOf(low, k) <==> k == 0 || k == 1 || k == 2 || k == 8 || k == 9 || k == 10 || (k == 6 && user) || (k == 7 && !writable)
  {
    Powers();
    assert k == 0 || k == 1 || k == 2 || k == 3 || k == 4 || k == 5 || k == 6 || k == 7 || k == 8 || k == 9 || k == 10 || k == 11;
  }

  lemma Powers()
    ensures Two(0) == 1 && Two(1) == 2 && Two(2) == 4 && Two(3) == 8 && Two(4) == 16 && Two(5) == 32 && Two(6) == 64
    ensures Two(7) == 128 && Two(8) == 256 && Two(9) == 512 && Two(10) == 1024 && Two(11) == 2048
  {
  }

  lemma NoBits(k: nat)
    ensures !BitOf(0, k)
  {
    assert 0 / Two(k) == 0;
  }

  lemma LeafBits(a: Arch, phys: U64Value, flags: Flags, k: nat)
    ensures BitOf(Value(LeafEntry(a, phys, flags)), k) <==> LeafBit(a, phys, flags, k)
  {
    hide BitOf, Two, Value, PhysFrame;
    WordBits(LeafEntry(a, phys, flags), k);
    FlagBits(flags);
    NoBits(k - if k >= 52 then 52 else k);
    if 12 <= k < 52 {
      FrameBits(a, phys, k);
    }
    if k < 12 {
      match a
      case X86 => EightBits(flags, k);
      case A64 => LowLeafBits(UserFlag(flags), WritableFlag(flags), LeafFlags(flags), k);
    }
  }

  lemma EightBits(flags: Flags, k: nat)
    ensures BitOf(flags % 8, k) <==> k < 3 && BitOf(flags, k)
  {
    Sizes();
    BitsMod(flags, 3, k);
  }

  /** Bits below 12 of the entries that lead to tables: PRESENT, WRITABLE and, if asked for, USER; or VALID and TABLE. */
  lemma EntryBits(a: Arch, f: FrameField, user: bool, k: nat)
    ensures BitOf(Value(NewEntry(a, f, user)), k)
        <==> (12 <= k < 52 && BitOf(f, k - 12)) || k == 0 || k == 1 || (k == 2 && a == X86 && user)
  {
    hide BitOf, Two, Value;
    WordBits(NewEntry(a, f, user), k);
    NoBits(k - if k >= 52 then 52 else k);
    if k < 12 {
      SmallBits(k);
    }
  }

  lemma SmallBits(k: nat)
    ensures BitOf(3, k) <==> k == 0 || k == 1
    ensures BitOf(7, k) <==> k == 0 || k == 1 || k == 2
    ensures k < 12 ==> (BitOf(0x83, k) <==> k == 0 || k == 1 || k == 7)
  {
    Powers();
    if k >= 3 {
      NoBit(3, 3, k);
      NoBit(7, 3, k);
    }
  }

  /** A cloned table entry: the child's frame, the source's twelve low bits on x86_64, and no bit above. */
  lemma CloneBits(a: Arch, f: FrameField, w: Word, k: nat)
    ensures BitOf(Value(CloneEntry(a, f, w)), k)
        <==> (12 <= k < 52 && BitOf(f, k - 12)) || (k < 12 && if a == X86 then BitOf(Value(w), k) else k < 2)
  {
    hide BitOf, Two, Value;
    WordBits(CloneEntry(a, f, w), k);
    WordBits(w, k);
    NoBits(k - if k >= 52 then 52 else k);
    if k < 12 {
      SmallBits(k);
    }
  }

  /** Widening an entry sets bit 2 and leaves all others. */
  lemma WidenBits(w: Word, k: nat)
    ensures BitOf(Value(Widen(w)), k) <==> BitOf(Value(w), k) || k == 2
  {
    hide BitOf, Two, Value;
    WordBits(w, k);
    WordBits(Widen(w), k);
    if k < 12 {
      PlusFourBits(w.low, k);
    }
  }

  lemma PlusFourBits(n: Twelve, k: nat)
    requires k < 12
    ensures n / 4 % 2 == 1 ==> BitOf(n, 2)
    ensures n / 4 % 2 == 0 ==> n + 4 < 0x1000 && (BitOf(n + 4, k) <==> BitOf(n, k) || k == 2)
  {
    Powers();
    if n / 4 % 2 == 0 {
      PlusFour(n);
      var x, low := n / 8, n % 8;
      assert n == x * 8 + low;
      LowHalf(x, low);
      if k < 3 { BitLow(x, 3, low, k); BitLow(x, 3, low + 4, k); } else { BitHigh(x, 3, low, k); BitHigh(x, 3, low + 4, k); }
    }
  }

  /** The 2MB leaves of paging_identity_map: all bits of the address, PRESENT, WRITABLE and HUGE. */
  lemma BigBits(addr: U64Value, k: nat)
    requires addr % 0x20_0000 == 0
    ensures BitOf(Value(BigEntry(addr)), k) <==> BitOf(addr, k) || k == 0 || k == 1 || k == 7
  {
    hide BitOf, Two, Value, PhysFrame;
    WordBits(BigEntry(addr), k);
    SmallBits(k);
    WordBits(FromValue(addr), k);
    ValueOfFromValue(addr);
    if k < 12 {
      assert addr % 4096 == 0;
      NoBits(k);
    }
  }

  /** The word vmm_map leaves for v, bit by bit, in any space of any reachable state. */
  lemma MappedWord(a: Arch, y: Sys, id: nat, v: U64Value, phys: U64Value, flags: Flags, k: nat)
    requires 0 in y.roots && Enabled(a, y, Map(id, v, phys, flags)) && Inv(a, y)
    requires PresentFlag(flags) && !Stops(Seen(a, y, id, v))
    ensures var h := Seen(a, Exec(a, y, Map(id, v, phys, flags)), id, v);
            h.Leaf? && h.level == 1 && (BitOf(Value(h.word), k) <==> LeafBit(a, phys, flags, k))
  {
    hide Inv, Look, MapPage, LeafEntry, BitOf, Value, LeafBit;
    StepMap(a, y, id, v, phys, flags);
    SamePageIff(v, v, Levels(a));
    LeafBits(a, phys, flags, k);
  }

  /** The leaf table a walk of v reaches. */
  function LeafTable(a: Arch, m: Memory, f: nat, d: Depth, v: U64Value): nat
    decreases d
  {
    if d == 1 then f else LeafTable(a, m, FrameOf(a, Get(m, f, Index(v, d))), d - 1, v)
  }

  /** vmm_unmap of a mapped page stores one word of 64 zero bits, into the leaf table; of a page in a block it
      stores nothing. */
  lemma {:induction false} UnmapStores(a: Arch, m: Memory, f: nat, d: Depth, v: U64Value)
    ensures var h, n := Walk(a, m, f, d, v), UnmapPage(a, m, f, d, v);
            && (h.Leaf? && h.level == 1 ==> n == Put(m, LeafTable(a, m, f, d, v), Index(v, 1), NIL) && Value(NIL) == 0)
            && (h.Leaf? && h.level > 1 ==> n == m)
    decreases d
  {
    hide Index, IsTable, Present;
    if d > 1 && IsTable(a, Get(m, f, Index(v, d))) {
      UnmapStores(a, m, FrameOf(a, Get(m, f, Index(v, d))), d - 1, v);
    }
  }

  /** What phys & ADDR_MASK is for addresses the mask covers. */
  lemma MaskedIs(a: Arch, phys: U64Value)
    requires phys < if a == X86 then 0x10_0000_0000_0000 else 0x1_0000_0000_0000
    ensures PhysFrame(a, phys) * 4096 == phys - phys % 4096
  {
  }

  // ---------------------------------------------------------------- the words at boot

  lemma OneBit(m: nat, k: nat)
    ensures BitOf(Two(m), k) <==> k == m
  {
    hide Two, BitOf;
    Powers();
    if k < m {
      BitLow(1, m, 0, k);
      NoBits(k);
    } else {
      BitHigh(1, m, 0, k);
      if k > m { NoBit(1, 1, k - m); } else { BitZero(1); }
    }
  }

  lemma BitZero(n: nat)
    ensures BitOf(n, 0) <==> n % 2 == 1
  {
  }

  lemma LowBootBits(k: nat)
    requires k < 12
    ensures BitOf(0x701, k) <==> k == 0 || k == 8 || k == 9 || k == 10
    ensures BitOf(0x705, k) <==> k == 0 || k == 2 || k == 8 || k == 9 || k == 10
    ensures BitOf(6, k) <==> k == 1 || k == 2
  {
    Powers();
    assert k == 0 || k == 1 || k == 2 || k == 3 || k == 4 || k == 5 || k == 6 || k == 7 || k == 8 || k == 9 || k == 10 || k == 11;
  }

  /** mmu_boot.c's blocks: the first gigabyte as device memory (AttrIndx 0) that is never executed (PXN and UXN, bits 53
      and 54), the second, at 0x40000000, as normal memory (AttrIndx 1); both valid, inner shareable, accessed, and for
      the kernel alone to read and write. */
  lemma BootBitsA64(m: Memory, l1: nat, k: nat)
    requires BootA64(m, l1)
    ensures BitOf(Value(Get(m, l1, 0)), k) <==> k == 0 || k == 8 || k == 9 || k == 10 || k == 53 || k == 54
    ensures BitOf(Value(Get(m, l1, 1)), k) <==> k == 0 || k == 2 || k == 8 || k == 9 || k == 10 || k == 30
  {
    hide BitOf, Two, Value;
    var device, ram := Word(0, 0x701, 6), Word(0x4_0000, 0x705, 0);
    WordBits(device, k);
    WordBits(ram, k);
    if k < 12 {
      LowBootBits(k);
    } else if k < 52 {
      NoBits(k - 12);
      assert Two(18) == 0x4_0000 by { EighteenBits(); }
      OneBit(18, k - 12);
    } else {
      NoBits(k - 52);
      if k < 64 { LowBootBits(k - 52); } else { SmallSix(k - 52); }
    }
  }

  lemma EighteenBits()
    ensures Two(18) == 0x4_0000
  {
    Powers();
    TwoSum(9, 9);
  }

  lemma SmallSix(k: nat)
    requires k >= 12
    ensures !BitOf(6, k)
  {
    Powers();
    NoBit(6, 3, k);
  }

  /** boot.asm's two upper tables lead on with PRESENT and WRITABLE; entry i of its page directory is the 2MB leaf
      of i * 2MB. */
  lemma BootBitsX86(m: Memory, pml4: nat, pdp: nat, pd: nat, i: nat, k: nat)
    requires BootX86(m, pml4, pdp, pd) && i < 512
    ensures BitOf(Value(Get(m, pd, i)), k) <==> BitOf(i * 0x20_0000, k) || k == 0 || k == 1 || k == 7
    ensures BitOf(Value(Get(m, pml4, 0)), k) <==> (12 <= k < 52 && BitOf(pdp, k - 12)) || k == 0 || k == 1
    ensures BitOf(Value(Get(m, pdp, 0)), k) <==> (12 <= k < 52 && BitOf(pd, k - 12)) || k == 0 || k == 1
  {
    hide BitOf, Value;
    assert BigEntry(i * 0x20_0000) == Word(512 * i, 0x83, 0);
    BigBits(i * 0x20_0000, k);
    EntryBits(X86, pdp, false, k);
    EntryBits(X86, pd, false, k);
  }
}

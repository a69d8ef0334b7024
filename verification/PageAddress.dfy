/** Which virtual addresses the tables can tell apart. */
module PageAddress {
  import opened Arith
  import opened Pmm
  import opened PageTable

  /** 4KB pages that d levels of tables tell apart. */
  function Pages(d: Depth): nat {
    if d == 1 then 0x200 else if d == 2 then 0x4_0000 else if d == 3 then 0x800_0000 else 0x10_0000_0000
  }

  /** Two addresses share all their indices exactly when their page numbers agree in the bits translated. */
  lemma {:induction false} SamePageIff(u: U64Value, v: U64Value, d: Depth)
    ensures SamePage(u, v, d) <==> u / 4096 % Pages(d) == v / 4096 % Pages(d)
    decreases d
  {
    var n := EntrySpan(d) / 4096;
    assert Pages(d) == 512 * n && EntrySpan(d) == 4096 * n;
    PageSplits(u, d, n);
    PageSplits(v, d, n);
    if d > 1 {
      SamePageIff(u, v, d - 1);
      assert n == Pages(d - 1);
    }
    if u / 4096 % Pages(d) == v / 4096 % Pages(d) {
      QuotientUnique(u / 4096 % Pages(d), n, Index(u, d), u / 4096 % n);
      QuotientUnique(u / 4096 % Pages(d), n, Index(v, d), v / 4096 % n);
    }
  }

  lemma PageSplits(u: U64Value, d: Depth, n: nat)
    requires n > 0 && EntrySpan(d) == 4096 * n
    ensures u / 4096 % (512 * n) == Index(u, d) * n + u / 4096 % n
  {
    RemainderSplits(u / 4096, n);
    QuotientOfQuotient(u, 4096, n);
  }
}

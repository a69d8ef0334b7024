/** kmalloc and kfree on the whole heap, and every run of them. */
module HeapRuns {
  import opened Arith
  import opened Pmm
  import opened HeapView

  /** Blocks handed out never overlap each other, header or payload, in any arenas. */
  lemma LiveDisjoint(v: View, c: Cell, c': Cell)
    requires ViewOk(v) && c in Live(v) && c' in Live(v) && c != c'
    ensures c.End() <= c'.addr || c'.End() <= c.addr
    ensures c.Payload() % ALIGN == 0
  {
    var i :| 0 <= i < |v| && c in LiveIn(v[i].cells);
    var j :| 0 <= j < |v[i].cells| && v[i].cells[j] == c;
    var i' :| 0 <= i' < |v| && c' in LiveIn(v[i'].cells);
    var j' :| 0 <= j' < |v[i'].cells| && v[i'].cells[j'] == c';
    Disjoint(v, i, j, i', j');
  }

  lemma ReplaceArena(v: View, i: nat, cells: seq<Cell>)
    requires ViewOk(v) && i < |v| && Tiles(cells, v[i].base + ARENA_HDR, v[i].End())
    ensures ViewOk(v[i := v[i].(cells := cells)])
  {
    var w := v[i := v[i].(cells := cells)];
    assert forall k :: 0 <= k < |w| ==> w[k].base == v[k].base && w[k].End() == v[k].End();
  }

  lemma ReplaceLive(v: View, i: nat, cells: seq<Cell>)
    requires i < |v| && forall k :: 0 <= k < |v| && k != i ==> LiveIn(v[k].cells) !! LiveIn(v[i].cells)
    ensures Live(v[i := v[i].(cells := cells)]) == Live(v) - LiveIn(v[i].cells) + LiveIn(cells)
  {
    var w := v[i := v[i].(cells := cells)];
    forall c
      ensures c in Live(w) <==> c in Live(v) - LiveIn(v[i].cells) + LiveIn(cells)
    {
      if c in LiveIn(cells) {
        assert c in LiveIn(w[i].cells);
      }
      if c in Live(v) && c !in LiveIn(v[i].cells) {
        var k :| 0 <= k < |v| && c in LiveIn(v[k].cells);
        assert w[k] == v[k];
      }
    }
  }

  lemma ArenasApart(v: View, i: nat)
    requires ViewOk(v) && i < |v|
    ensures forall k :: 0 <= k < |v| && k != i ==> LiveIn(v[k].cells) !! LiveIn(v[i].cells)
  {
    forall k, c | 0 <= k < |v| && k != i && c in LiveIn(v[k].cells) && c in LiveIn(v[i].cells)
      ensures false
    {
      var j :| 0 <= j < |v[k].cells| && v[k].cells[j] == c;
      var j' :| 0 <= j' < |v[i].cells| && v[i].cells[j'] == c;
      Disjoint(v, k, j, i, j');
    }
  }

  /** Taking a free cell adds exactly one live block, and keeps the heap tiled. */
  lemma TakeAtFacts(v: View, i: nat, j: nat, n: nat)
    requires ViewOk(v) && i < |v| && j < |v[i].cells| && Fits(v[i].cells[j], n) && n % ALIGN == 0
    ensures var w := TakeAt(v, i, j, n);
            var c := TakeCell(v[i].cells, j, n)[j];
            && ViewOk(w) && Live(w) == Live(v) + {c} && c !in Live(v)
            && c.addr == v[i].cells[j].addr && n <= c.size && !c.free
  {
    var a := v[i];
    TakeTiles(a.cells, a.base + ARENA_HDR, a.End(), j, n);
    TakeLive(a.cells, j, n);
    ReplaceArena(v, i, TakeCell(a.cells, j, n));
    ArenasApart(v, i);
    ReplaceLive(v, i, TakeCell(a.cells, j, n));
    var c := TakeCell(a.cells, j, n)[j];
    if c in Live(v) {
      var k :| 0 <= k < |v| && c in LiveIn(v[k].cells);
      var l :| 0 <= l < |v[k].cells| && v[k].cells[l] == c;
      assert (k, l) != (i, j);
      Disjoint(v, k, l, i, j);
    }
  }

  lemma SpanBytes(start: nat, count: nat, base: nat, frames: nat)
    requires base % FRAME_SIZE == 0 && Span(start, count) !! Span(base / FRAME_SIZE, frames) && count > 0 && frames > 0
    ensures (start + count) * FRAME_SIZE <= base || base + frames * FRAME_SIZE <= start * FRAME_SIZE
  {
    var b := base / FRAME_SIZE;
    assert base == b * FRAME_SIZE;
    if start <= b { assert b in Span(b, frames); assert b !in Span(start, count); }
    else { assert start in Span(start, count); assert start !in Span(b, frames); }
  }

  lemma EightsFit(frames: nat, start: nat)
    ensures (start * FRAME_SIZE + ARENA_HDR) % ALIGN == 0
    ensures frames * FRAME_SIZE >= ARENA_HDR + HDR ==> (frames * FRAME_SIZE - ARENA_HDR - HDR) % ALIGN == 0
  {
    QuotientUnique(start * FRAME_SIZE + ARENA_HDR, ALIGN, 512 * start + 3, 0);
    if frames * FRAME_SIZE >= ARENA_HDR + HDR {
      QuotientUnique(frames * FRAME_SIZE - ARENA_HDR - HDR, ALIGN, 512 * frames - 6, 0);
    }
  }

  lemma ArenaHasFrames(a: Arena)
    requires ArenaOk(a)
    ensures a.frames > 0
  {
    CellInside(a.cells, a.base + ARENA_HDR, a.End(), 0);
  }

  /** grow_heap: the new arena is tiled by one free cell and overlaps no other arena. */
  lemma GrowFacts(h: HeapState, total: nat, n: U64Value, start: nat)
    requires HeapOk(h, total) && FirstRun(h.used, total, GrowFrames(n), 0) == Some(start)
    ensures var g := HeapState([NewArena(start, n)] + h.v, h.used + Span(start, GrowFrames(n)));
            HeapOk(g, total) && Live(g.v) == Live(h.v) && Fits(g.v[0].cells[0], GrowSize(n))
  {
    var frames := GrowFrames(n);
    FirstRunIsLowest(h.used, total, frames, 0);
    var a := NewArena(start, n);
    EightsFit(frames, start);
    assert start != 0 by { assert 0 in h.used; }
    assert ArenaOk(a) by { QuotientUnique(a.base, FRAME_SIZE, start, 0); }
    var g := [a] + h.v;
    forall k | 0 <= k < |h.v|
      ensures a.End() <= h.v[k].base || h.v[k].End() <= a.base
    {
      ArenaHasFrames(h.v[k]);
      SpanBytes(start, frames, h.v[k].base, h.v[k].frames);
    }
    assert ViewOk(g);
    GrowLive(h.v, a);
    QuotientUnique(a.base, FRAME_SIZE, start, 0);
  }

  lemma GrowLive(v: View, a: Arena)
    requires |a.cells| == 1 && a.cells[0].free
    ensures Live([a] + v) == Live(v)
  {
    var g := [a] + v;
    forall c
      ensures c in Live(g) <==> c in Live(v)
    {
      if c in Live(v) {
        var k :| 0 <= k < |v| && c in LiveIn(v[k].cells);
        assert g[k + 1] == v[k];
      }
    }
  }

  // ---------------------------------------------------------------- kmalloc

  /** No free block fits and the allocator has no run of frames long enough to grow. */
  ghost predicate Exhausted(h: HeapState, total: nat, size: U64Value) {
    && (forall i, j :: 0 <= i < |h.v| && 0 <= j < |h.v[i].cells| ==> !Fits(h.v[i].cells[j], Aligned(size)))
    && forall start: nat :: !RunFree(h.used, total, start, GrowFrames(Aligned(size)))
  }

  lemma KmallocTakes(h: HeapState, total: nat, i: nat, j: nat, n: nat)
    requires HeapOk(h, total) && i < |h.v| && j < |h.v[i].cells| && Fits(h.v[i].cells[j], n) && n % ALIGN == 0
    ensures var w := TakeAt(h.v, i, j, n);
            var t := TakeCell(h.v[i].cells, j, n);
            && HeapOk(h.(v := w), total) && j < |t| && Live(w) == Live(h.v) + {t[j]} && t[j] !in Live(h.v)
            && t[j].addr == h.v[i].cells[j].addr && n <= t[j].size <= n + 32 && t[j].Payload() % ALIGN == 0
  {
    TakeAtFacts(h.v, i, j, n);
    LiveAligned(TakeAt(h.v, i, j, n), TakeCell(h.v[i].cells, j, n)[j]);
  }

  /** kmalloc fails for a nonzero size exactly when the heap is exhausted, and then changes nothing;
      otherwise it hands out one new block, 8-aligned, large enough, apart from every live block, and
      every block that was live stays live at the same place with the same size. */
  lemma KmallocFacts(h: HeapState, total: nat, size: U64Value) returns (c: Cell)
    requires HeapOk(h, total) && !Overrun(h, total, size)
    ensures var (g, p) := Kmalloc(h, total, size);
            && HeapOk(g, total) && h.used <= g.used
            && (p == 0 <==> size == 0 || Exhausted(h, total, size))
            && (p == 0 ==> g == h)
            && (p != 0 ==> c.Payload() == p && p % ALIGN == 0 && Aligned(size) <= c.size
                           && c.size <= Aligned(size) + 32
                           && (size <= MAX_REQUEST ==> size <= c.size < size + 40)
                           && c !in Live(h.v) && Live(g.v) == Live(h.v) + {c})
  {
    hide Aligned, GrowFrames, GrowSize, FirstFit, FirstRun, TakeAt, TakeCell, Live, ViewOk, Span, RunFree;
    c := Cell(0, 0, false);
    if size == 0 { return; }
    var n := Aligned(size);
    RequestSizes(size);
    FirstFitIsFirst(h.v, n, 0);
    match FirstFit(h.v, n, 0)
    case Some((i, j)) =>
      KmallocTakes(h, total, i, j, n);
      c := TakeCell(h.v[i].cells, j, n)[j];
    case None =>
      FirstRunIsLowest(h.used, total, GrowFrames(n), 0);
      match FirstRun(h.used, total, GrowFrames(n), 0) {
        case None =>
        case Some(start) =>
          GrowFacts(h, total, n, start);
          var w := [NewArena(start, n)] + h.v;
          KmallocTakes(HeapState(w, h.used + Span(start, GrowFrames(n))), total, 0, 0, n);
          c := TakeCell(w[0].cells, 0, n)[0];
      }
  }

  lemma LiveAligned(v: View, c: Cell)
    requires ViewOk(v) && c in Live(v)
    ensures c.Payload() % ALIGN == 0
  {
    var i :| 0 <= i < |v| && c in LiveIn(v[i].cells);
    var j :| 0 <= j < |v[i].cells| && v[i].cells[j] == c;
    CellAligned(v[i].cells, v[i].base + ARENA_HDR, v[i].End(), j);
  }

  // ---------------------------------------------------------------- kfree

  /** kfree of a live block removes that block from the live ones and disturbs nothing else. */
  lemma KfreeFacts(h: HeapState, total: nat, i: nat, j: nat)
    requires HeapOk(h, total) && i < |h.v| && j < |h.v[i].cells| && !h.v[i].cells[j].free
    ensures HeapOk(Kfree(h, i, j), total)
    ensures Live(Kfree(h, i, j).v) == Live(h.v) - {h.v[i].cells[j]} && h.v[i].cells[j] in Live(h.v)
  {
    var a := h.v[i];
    GiveTiles(a.cells, a.base + ARENA_HDR, a.End(), j);
    GiveLive(a.cells, a.base + ARENA_HDR, a.End(), j);
    ReplaceArena(h.v, i, GiveCell(a.cells, j));
    ArenasApart(h.v, i);
    ReplaceLive(h.v, i, GiveCell(a.cells, j));
    assert a.cells[j] in LiveIn(h.v[i].cells);
  }

  /** kfree right after a kmalloc that found a block restores the heap exactly, unless the block was handed
      out whole and its right neighbour is free: then the two end up merged. */
  lemma KfreeUndoesKmalloc(h: HeapState, total: nat, size: U64Value, i: nat, j: nat)
    requires 0 < size && i < |h.v| && j < |h.v[i].cells|
    requires FirstFit(h.v, Aligned(size), 0) == Some((i, j))
    ensures var (g, p) := Kmalloc(h, total, size);
            var cells := h.v[i].cells;
            && i < |g.v| && j < |g.v[i].cells| && g.v[i].cells[j].Payload() == p
            && Kfree(g, i, j) == if cells[j].size <= Aligned(size) + 32 && j + 1 < |cells| && cells[j + 1].free
                                 then Kfree(h, i, j) else h
  {
    var n := Aligned(size);
    FirstFitIsFirst(h.v, n, 0);
    FreeUndoesAlloc(h.v[i].cells, j, n);
    var (g, p) := Kmalloc(h, total, size);
    assert Kfree(g, i, j).v == h.v[i := h.v[i].(cells := GiveCell(TakeCell(h.v[i].cells, j, n), j))];
    assert h.v[i := h.v[i]] == h.v;
  }

  // ---------------------------------------------------------------- what is written

  /** The block headers that taking n bytes from cell c writes; giving c back writes the first one. */
  function CellHeaders(c: Cell, n: nat): set<nat> {
    if Splits(c, n) then {c.addr, c.addr + HDR + n} else {c.addr}
  }

  /** Every header kmalloc writes: the block's, that of the rest, and those of a new arena. */
  function MallocHeaders(h: HeapState, total: nat, size: U64Value): set<nat> {
    if size == 0 then {}
    else
      var n := Aligned(size);
      FirstFitIsFirst(h.v, n, 0);
      match FirstFit(h.v, n, 0)
      case Some((i, j)) => CellHeaders(h.v[i].cells[j], n)
      case None =>
        match FirstRun(h.used, total, GrowFrames(n), 0)
        case None => {}
        case Some(start) => {start * FRAME_SIZE} + CellHeaders(NewArena(start, n).cells[0], n)
  }

  /** Every header that allocating from cell j, or freeing it, writes lies outside the payload and the header
      of every other cell, the live ones among them. */
  lemma HeadersMissOthers(v: View, i: nat, j: nat, n: nat, i': nat, j': nat, x: nat)
    requires ViewOk(v) && i < |v| && j < |v[i].cells| && i' < |v| && j' < |v[i'].cells| && (i != i' || j != j')
    requires n <= v[i].cells[j].size && x in CellHeaders(v[i].cells[j], n)
    ensures x + HDR <= v[i'].cells[j'].addr || v[i'].cells[j'].End() <= x
  {
    Disjoint(v, i, j, i', j');
  }

  lemma HeadersInside(v: View, i: nat, j: nat, n: nat, x: nat)
    requires ViewOk(v) && i < |v| && j < |v[i].cells| && n <= v[i].cells[j].size && x in CellHeaders(v[i].cells[j], n)
    ensures v[i].base <= x && x + HDR <= v[i].End()
  {
    CellInside(v[i].cells, v[i].base + ARENA_HDR, v[i].End(), j);
  }

  /** Header x lies in one of the arenas. */
  ghost predicate InArena(v: View, x: nat) {
    exists k :: 0 <= k < |v| && v[k].base <= x && x + HDR <= v[k].End()
  }

  /** kmalloc writes inside the arenas there are afterwards, and into no live block. */
  lemma MallocHeadersFit(h: HeapState, total: nat, size: U64Value, x: nat)
    requires HeapOk(h, total) && !Overrun(h, total, size) && x in MallocHeaders(h, total, size)
    ensures InArena(Kmalloc(h, total, size).0.v, x)
    ensures forall d :: d in Live(h.v) ==> x + HDR <= d.addr || d.End() <= x
  {
    hide Aligned, GrowFrames, GrowSize, FirstRun, Span, ViewOk, TakeCell, CellHeaders, Live;
    var n := Aligned(size);
    var g := Kmalloc(h, total, size).0;
    FirstFitIsFirst(h.v, n, 0);
    match FirstFit(h.v, n, 0)
    case Some((i, j)) =>
      HeadersInside(h.v, i, j, n, x);
      assert g.v[i].base == h.v[i].base && g.v[i].End() == h.v[i].End();
      MissLive(h.v, i, j, n, x);
    case None =>
      var start := FirstRun(h.used, total, GrowFrames(n), 0).value;
      var w := [NewArena(start, n)] + h.v;
      GrowFacts(h, total, n, start);
      assert g.v[0].base == w[0].base && g.v[0].End() == w[0].End();
      if x == start * FRAME_SIZE {
        BaseMissesLive(w, x);
      } else {
        HeadersInside(w, 0, 0, n, x);
        MissLive(w, 0, 0, n, x);
      }
  }

  lemma MissLive(v: View, i: nat, j: nat, n: nat, x: nat)
    requires ViewOk(v) && i < |v| && j < |v[i].cells| && n <= v[i].cells[j].size && x in CellHeaders(v[i].cells[j], n)
    requires v[i].cells[j].free
    ensures forall d :: d in Live(v) ==> x + HDR <= d.addr || d.End() <= x
  {
    hide ViewOk, CellHeaders;
    forall d | d in Live(v)
      ensures x + HDR <= d.addr || d.End() <= x
    {
      var i' :| 0 <= i' < |v| && d in LiveIn(v[i'].cells);
      var j' :| 0 <= j' < |v[i'].cells| && v[i'].cells[j'] == d;
      HeadersMissOthers(v, i, j, n, i', j', x);
    }
  }

  lemma BaseMissesLive(v: View, x: nat)
    requires ViewOk(v) && |v| > 0 && x == v[0].base
    ensures x + HDR <= v[0].End()
    ensures forall d :: d in Live(v) ==> x + HDR <= d.addr || d.End() <= x
  {
    CellInside(v[0].cells, v[0].base + ARENA_HDR, v[0].End(), 0);
    forall d | d in Live(v)
      ensures x + HDR <= d.addr || d.End() <= x
    {
      var i :| 0 <= i < |v| && d in LiveIn(v[i].cells);
      var j :| 0 <= j < |v[i].cells| && v[i].cells[j] == d;
      CellInside(v[i].cells, v[i].base + ARENA_HDR, v[i].End(), j);
    }
  }

  /** kfree writes inside its arena, and into no other live block. */
  lemma FreeHeaderFits(v: View, i: nat, j: nat)
    requires ViewOk(v) && i < |v| && j < |v[i].cells|
    ensures var c := v[i].cells[j];
            && InArena(v, c.addr)
            && forall d :: d in Live(v) && d != c ==> c.addr + HDR <= d.addr || d.End() <= c.addr
  {
    hide ViewOk;
    var c := v[i].cells[j];
    HeadersInside(v, i, j, 0, c.addr);
    forall d | d in Live(v) && d != c
      ensures c.addr + HDR <= d.addr || d.End() <= c.addr
    {
      var i' :| 0 <= i' < |v| && d in LiveIn(v[i'].cells);
      var j' :| 0 <= j' < |v[i'].cells| && v[i'].cells[j'] == d;
      HeadersMissOthers(v, i, j, 0, i', j', c.addr);
    }
  }

  // ---------------------------------------------------------------- requests of any size

  /** The block kmalloc settles on, found or new. */
  function Picked(h: HeapState, total: nat, n: U64Value): Option<Cell> {
    FirstFitIsFirst(h.v, n, 0);
    match FirstFit(h.v, n, 0)
    case Some((i, j)) => Some(h.v[i].cells[j])
    case None =>
      match FirstRun(h.used, total, GrowFrames(n), 0)
      case None => None
      case Some(start) => Some(NewArena(start, n).cells[0])
  }

  /** alloc_from_block's remainder, its test, and where it writes the header of the rest, in 64-bit arithmetic. */
  function Remainder(c: Cell, n: U64Value): nat {
    (c.size - n) % U64
  }

  predicate SplitsIn64(c: Cell, n: U64Value) {
    Remainder(c, n) > HDR + ALIGN
  }

  function SplitAddr(c: Cell, n: U64Value): nat {
    (c.addr + HDR + n) % U64
  }

  /** The payload handed out has room for size bytes inside the block, and the header of the rest, if one is
      written, lies in the block behind it. */
  predicate KeepsPromise(c: Cell, n: U64Value, size: U64Value) {
    if SplitsIn64(c, n) then
      size <= n && c.Payload() + size <= SplitAddr(c, n) && SplitAddr(c, n) + HDR <= c.End()
    else size <= c.size
  }

  /** Cells lie in memory, behind an arena header that is not in frame 0. */
  lemma CellInMemory(h: HeapState, total: nat, i: nat, j: nat)
    requires HeapOk(h, total) && i < |h.v| && j < |h.v[i].cells|
    ensures FRAME_SIZE + ARENA_HDR <= h.v[i].cells[j].addr && h.v[i].cells[j].End() <= total * FRAME_SIZE
  {
    var a := h.v[i];
    CellInside(a.cells, a.base + ARENA_HDR, a.End(), j);
    ArenaHasFrames(a);
    var last := a.base / FRAME_SIZE + a.frames - 1;
    assert last in Span(a.base / FRAME_SIZE, a.frames);
  }

  lemma NewInMemory(h: HeapState, total: nat, n: U64Value, start: nat)
    requires HeapOk(h, total) && FirstRun(h.used, total, GrowFrames(n), 0) == Some(start)
    ensures start > 0 && NewArena(start, n).End() <= total * FRAME_SIZE
    ensures NewArena(start, n).cells[0].addr == start * FRAME_SIZE + ARENA_HDR
  {
    FirstRunIsLowest(h.used, total, GrowFrames(n), 0);
  }

  /** A request no block fits and no new arena covers is one whose sizes wrap. */
  lemma OverrunSizes(h: HeapState, total: nat, size: U64Value)
    requires Overrun(h, total, size)
    ensures MAX_REQUEST < size <= U64 - 8
  {
    RequestSizes(size);
  }

  lemma NoneThatLarge(h: HeapState, total: nat, n: U64Value)
    requires HeapOk(h, total) && total * FRAME_SIZE <= U64 && n >= U64 - 4136
    ensures FirstFit(h.v, n, 0) == None
  {
    hide HeapOk;
    FirstFitIsFirst(h.v, n, 0);
    match FirstFit(h.v, n, 0)
    case None =>
    case Some((i, j)) => CellInMemory(h, total, i, j);
  }

  /** Where the header of the rest goes when the sizes wrap: below the payload, on the block's own header, the
      arena's, or the frame before the arena. */
  lemma OverrunWrites(h: HeapState, total: nat, size: U64Value, start: nat)
    requires HeapOk(h, total) && total * FRAME_SIZE <= U64 && MAX_REQUEST < size <= U64 - 8
    requires FirstRun(h.used, total, GrowFrames(Aligned(size)), 0) == Some(start)
    ensures var n, c := Aligned(size), NewArena(start, Aligned(size)).cells[0];
            && Overrun(h, total, size) && Picked(h, total, n) == Some(c) && SplitsIn64(c, n)
            && SplitAddr(c, n) == c.Payload() - (U64 - n) && 8 <= U64 - n <= 4136
  {
    hide HeapOk, FirstFit, FirstRun, GrowFrames, Aligned;
    RequestSizes(size);
    AlignedBelow(size);
    NoneThatLarge(h, total, Aligned(size));
    NewInMemory(h, total, Aligned(size), start);
  }

  lemma AlignedBelow(size: U64Value)
    ensures Aligned(size) <= U64 - 8
  {
  }

  /** kmalloc hands out what it promises, whatever the state of the heap, exactly up to MAX_REQUEST. */
  lemma KmallocKeepsIff(h: HeapState, total: nat, size: U64Value)
    requires HeapOk(h, total) && total * FRAME_SIZE <= U64 && size > 0 && Picked(h, total, Aligned(size)).Some?
    ensures KeepsPromise(Picked(h, total, Aligned(size)).value, Aligned(size), size) <==> size <= MAX_REQUEST
  {
    hide HeapOk, FirstFit, FirstRun, GrowFrames, Aligned;
    var n := Aligned(size);
    RequestSizes(size);
    AlignedBelow(size);
    FirstFitIsFirst(h.v, n, 0);
    match FirstFit(h.v, n, 0)
    case Some((i, j)) =>
      CellInMemory(h, total, i, j);
      FoundKeepsIff(h.v[i].cells[j], n, size);
    case None =>
      var start := FirstRun(h.used, total, GrowFrames(n), 0).value;
      NewInMemory(h, total, n, start);
      if MAX_REQUEST < size <= U64 - 8 {
        OverrunWrites(h, total, size, start);
      } else {
        SmallFits(n, size);
        FoundKeepsIff(NewArena(start, n).cells[0], n, size);
      }
  }

  lemma SmallFits(n: U64Value, size: U64Value)
    requires n == Aligned(size) && (size <= MAX_REQUEST || size > U64 - 8)
    ensures n <= GrowSize(n)
  {
    RequestSizes(size);
  }

  /** A block large enough for n keeps the promise exactly if n was not rounded down to nothing. */
  lemma FoundKeepsIff(c: Cell, n: U64Value, size: U64Value)
    requires n <= c.size && FRAME_SIZE + ARENA_HDR <= c.addr && c.End() <= U64
    requires (size <= MAX_REQUEST && size <= n) || (MAX_REQUEST < size <= U64 - 8 && n >= U64 - 4136) || (size > U64 - 8 && n == 0)
    ensures KeepsPromise(c, n, size) <==> size <= MAX_REQUEST
  {
    assert Remainder(c, n) == c.size - n;
    if SplitsIn64(c, n) {
      assert SplitAddr(c, n) == c.addr + HDR + n;
    }
  }

  /** On a fresh heap in 17 frames, the first request above MAX_REQUEST makes kmalloc write the header of the
      rest at physical address 8, in frame 0, which is not the heap's. */
  lemma OverrunHitsFrameZero()
    ensures var h := HeapState([], {0});
            var n := Aligned(MAX_REQUEST + 1);
            && HeapOk(h, 17) && Overrun(h, 17, MAX_REQUEST + 1) && Picked(h, 17, n).Some?
            && SplitsIn64(Picked(h, 17, n).value, n) && SplitAddr(Picked(h, 17, n).value, n) == 8
  {
    var h := HeapState([], {0});
    var n := Aligned(MAX_REQUEST + 1);
    RequestSizes(MAX_REQUEST + 1);
    assert !RunFree({0}, 17, 0, 16) && RunFree({0}, 17, 1, 16);
    LowestIsFirstRun({0}, 17, 16, 0, 1);
    OverrunWrites(h, 17, MAX_REQUEST + 1, 1);
    assert n == U64 - 4136;
  }

  // ---------------------------------------------------------------- runs

  /** Frames(used) is any change of the used frames by others that leaves the arenas alone. */
  datatype HeapOp = Malloc(size: U64Value) | Free(i: nat, j: nat) | Frames(used: set<nat>)

  ghost predicate HeapEnabled(h: HeapState, total: nat, op: HeapOp) {
    match op
    case Malloc(size) => !Overrun(h, total, size)
    case Free(i, j) => i < |h.v| && j < |h.v[i].cells| && !h.v[i].cells[j].free
    case Frames(used) =>
      && 0 in used && (forall f: nat :: f in used ==> f < total)
      && forall i :: 0 <= i < |h.v| ==> Span(h.v[i].base / FRAME_SIZE, h.v[i].frames) <= used
  }

  ghost function HeapExec(h: HeapState, total: nat, op: HeapOp): HeapState
    requires HeapEnabled(h, total, op)
  {
    match op
    case Malloc(size) => Kmalloc(h, total, size).0
    case Free(i, j) => Kfree(h, i, j)
    case Frames(used) => h.(used := used)
  }

  /** h' is reached from h by the operations of ops, with `live` the blocks handed out and not yet freed. */
  ghost predicate HeapRun(h: HeapState, total: nat, ops: seq<HeapOp>, h': HeapState)
    decreases |ops|
  {
    if ops == [] then h' == h
    else HeapEnabled(h, total, ops[0]) && HeapRun(HeapExec(h, total, ops[0]), total, ops[1..], h')
  }

  ghost predicate NeverFrees(h: HeapState, total: nat, ops: seq<HeapOp>, c: Cell)
    decreases |ops|
  {
    ops == [] ||
      (HeapEnabled(h, total, ops[0])
       && (ops[0].Free? ==> h.v[ops[0].i].cells[ops[0].j] != c)
       && NeverFrees(HeapExec(h, total, ops[0]), total, ops[1..], c))
  }

  /** In every reachable state the arenas are tiled and apart; and a block stays live, in place and at its
      size, for as long as nobody frees that block, so no other live block ever reaches into it. */
  lemma {:induction false} LiveUntilFreed(h: HeapState, total: nat, ops: seq<HeapOp>, h': HeapState, c: Cell)
    requires HeapOk(h, total) && HeapRun(h, total, ops, h')
    requires c in Live(h.v) && NeverFrees(h, total, ops, c)
    ensures HeapOk(h', total) && c in Live(h'.v)
    ensures forall d :: d in Live(h'.v) && d != c ==> d.End() <= c.addr || c.End() <= d.addr
    decreases |ops|
  {
    if ops == [] {
      forall d | d in Live(h'.v) && d != c
        ensures d.End() <= c.addr || c.End() <= d.addr
      {
        LiveDisjoint(h'.v, c, d);
      }
    } else {
      match ops[0] {
        case Malloc(size) => var _ := KmallocFacts(h, total, size);
        case Free(i, j) => KfreeFacts(h, total, i, j);
        case Frames(used) =>
      }
      LiveUntilFreed(HeapExec(h, total, ops[0]), total, ops[1..], h', c);
    }
  }
}

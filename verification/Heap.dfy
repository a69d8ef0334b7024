/** mm/heap.c as it runs: block and arena headers at their addresses, linked by `next` (0 is NULL), walked
    and rewritten in place. Each operation is proved against the function of HeapView it computes. */
module Heap {
  import opened Pmm
  import opened HeapView
  import opened HeapRuns

  datatype BlockHeader = BlockHeader(size: nat, free: bool, next: nat)
  datatype ArenaHeader = ArenaHeader(next: nat, frames: nat, first: nat)

  function AddrAt(cells: seq<Cell>, k: nat): nat {
    if k < |cells| then cells[k].addr else 0
  }

  function BaseAt(v: View, i: nat): nat {
    if i < |v| then v[i].base else 0
  }

  /** The headers in memory spell out this row of cells. */
  ghost predicate LinkedCells(blocks: map<nat, BlockHeader>, cells: seq<Cell>) {
    forall k: nat :: k < |cells| ==>
      cells[k].addr in blocks && blocks[cells[k].addr] == BlockHeader(cells[k].size, cells[k].free, AddrAt(cells, k + 1))
  }

  ghost predicate LinkedArenas(arenas: map<nat, ArenaHeader>, first: nat, v: View) {
    && first == BaseAt(v, 0)
    && forall i: nat :: i < |v| ==>
         v[i].base in arenas && arenas[v[i].base] == ArenaHeader(BaseAt(v, i + 1), v[i].frames, AddrAt(v[i].cells, 0))
  }

  /** The two header writes of alloc_from_block. */
  function TakenHeaders(blocks: map<nat, BlockHeader>, b: nat, n: nat): map<nat, BlockHeader>
    requires b in blocks && n <= blocks[b].size
  {
    var h := blocks[b];
    if h.size - n > HDR + ALIGN then
      blocks[b + HDR + n := BlockHeader(h.size - n - HDR, true, h.next)][b := BlockHeader(n, false, b + HDR + n)]
    else blocks[b := h.(free := false)]
  }

  /** The same in 64-bit arithmetic, for a block of any size. */
  function HeadersIn64(blocks: map<nat, BlockHeader>, b: nat, n: U64Value): map<nat, BlockHeader>
    requires b in blocks
  {
    var h := blocks[b];
    var remainder, split := (h.size - n) % U64, (b + HDR + n) % U64;
    if remainder > HDR + ALIGN then blocks[split := BlockHeader(remainder - HDR, true, h.next)][b := BlockHeader(n, false, split)]
    else blocks[b := h.(free := false)]
  }

  lemma TakenIn64(blocks: map<nat, BlockHeader>, b: nat, n: U64Value)
    requires b in blocks && n <= blocks[b].size && b + HDR + blocks[b].size <= U64
    ensures HeadersIn64(blocks, b, n) == TakenHeaders(blocks, b, n)
  {
    var h := blocks[b];
    assert (h.size - n) % U64 == h.size - n;
    if h.size - n > HDR + ALIGN {
      assert (b + HDR + n) % U64 == b + HDR + n;
    }
  }

  lemma AddressesApart(cells: seq<Cell>, start: nat, end: nat, j: nat)
    requires Tiles(cells, start, end) && j < |cells|
    ensures forall k: nat :: k < |cells| && k != j ==> cells[k].addr < cells[j].addr || cells[k].addr >= cells[j].End()
  {
    forall k: nat | k < |cells| && k != j
      ensures cells[k].addr < cells[j].addr || cells[k].addr >= cells[j].End()
    {
      if k < j { CellsInOrder(cells, start, end, k, j); } else { CellsInOrder(cells, start, end, j, k); }
    }
  }

  lemma LinkTake(blocks: map<nat, BlockHeader>, cells: seq<Cell>, start: nat, end: nat, j: nat, n: nat)
    requires LinkedCells(blocks, cells) && Tiles(cells, start, end) && j < |cells| && n <= cells[j].size
    ensures LinkedCells(TakenHeaders(blocks, cells[j].addr, n), TakeCell(cells, j, n))
  {
    hide Tiles, LinkedCells;
    AddressesApart(cells, start, end, j);
    if Splits(cells[j], n) {
      LinkSplit(blocks, cells, j, n);
    } else {
      LinkWhole(blocks, cells, j, n);
    }
  }

  lemma LinkWhole(blocks: map<nat, BlockHeader>, cells: seq<Cell>, j: nat, n: nat)
    requires LinkedCells(blocks, cells) && j < |cells| && n <= cells[j].size && !Splits(cells[j], n)
    requires forall k: nat :: k < |cells| && k != j ==> cells[k].addr != cells[j].addr
    ensures LinkedCells(TakenHeaders(blocks, cells[j].addr, n), TakeCell(cells, j, n))
  {
    var t := TakeCell(cells, j, n);
    assert forall k: nat :: AddrAt(t, k) == AddrAt(cells, k);
  }

  lemma LinkSplit(blocks: map<nat, BlockHeader>, cells: seq<Cell>, j: nat, n: nat)
    requires LinkedCells(blocks, cells) && j < |cells| && Splits(cells[j], n)
    requires forall k: nat :: k < |cells| && k != j ==> cells[k].addr < cells[j].addr || cells[k].addr >= cells[j].End()
    ensures LinkedCells(TakenHeaders(blocks, cells[j].addr, n), TakeCell(cells, j, n))
  {
    var t := TakeCell(cells, j, n);
    var after := TakenHeaders(blocks, cells[j].addr, n);
    forall k: nat | k < |t|
      ensures t[k].addr in after && after[t[k].addr] == BlockHeader(t[k].size, t[k].free, AddrAt(t, k + 1))
    {
      if k < j {
        assert t[k] == cells[k] && AddrAt(t, k + 1) == AddrAt(cells, k + 1);
      } else if k > j + 1 {
        assert t[k] == cells[k - 1] && AddrAt(t, k + 1) == AddrAt(cells, k);
      } else if k == j + 1 {
        assert AddrAt(t, k + 1) == AddrAt(cells, k);
      }
    }
  }

  /** Header writes inside cell j of arena i leave the rows of the other arenas spelled out. */
  lemma LinkOthers(blocks: map<nat, BlockHeader>, after: map<nat, BlockHeader>, v: View, i: nat, j: nat, p: nat)
    requires ViewOk(v) && i < |v| && j < |v[i].cells| && p < |v| && p != i && LinkedCells(blocks, v[p].cells)
    requires forall x: nat :: x < v[i].cells[j].addr || x >= v[i].cells[j].End() ==>
               (x in blocks ==> x in after && after[x] == blocks[x])
    ensures LinkedCells(after, v[p].cells)
  {
    forall k: nat | k < |v[p].cells|
      ensures v[p].cells[k].addr in after && after[v[p].cells[k].addr] == blocks[v[p].cells[k].addr]
    {
      Disjoint(v, p, k, i, j);
    }
  }

  lemma LinkAllOthers(blocks: map<nat, BlockHeader>, after: map<nat, BlockHeader>, v: View, i: nat, j: nat)
    requires ViewOk(v) && i < |v| && j < |v[i].cells|
    requires forall p: nat :: p < |v| ==> LinkedCells(blocks, v[p].cells)
    requires forall x: nat :: x < v[i].cells[j].addr || x >= v[i].cells[j].End() ==>
               (x in blocks ==> x in after && after[x] == blocks[x])
    ensures forall p: nat :: p < |v| && p != i ==> LinkedCells(after, v[p].cells)
  {
    forall p: nat | p < |v| && p != i
      ensures LinkedCells(after, v[p].cells)
    {
      LinkOthers(blocks, after, v, i, j, p);
    }
  }

  /** The headers, as a whole, spell out the view. */
  ghost predicate Linked(blocks: map<nat, BlockHeader>, arenas: map<nat, ArenaHeader>, first: nat, v: View) {
    && LinkedArenas(arenas, first, v)
    && forall i: nat :: i < |v| ==> LinkedCells(blocks, v[i].cells)
  }

  /** New cells in arena i, starting where the old ones did, need no change of an arena header. */
  lemma LinkedArenasAgain(arenas: map<nat, ArenaHeader>, first: nat, v: View, i: nat, cells: seq<Cell>)
    requires LinkedArenas(arenas, first, v) && i < |v| && AddrAt(cells, 0) == AddrAt(v[i].cells, 0)
    ensures LinkedArenas(arenas, first, v[i := v[i].(cells := cells)])
  {
    var w := v[i := v[i].(cells := cells)];
    assert forall p: nat :: BaseAt(w, p) == BaseAt(v, p);
  }

  /** Rewriting headers inside cell j of arena i, so that they spell out new cells there. */
  lemma LinkedAgain(blocks: map<nat, BlockHeader>, after: map<nat, BlockHeader>, arenas: map<nat, ArenaHeader>,
                    first: nat, v: View, i: nat, j: nat, cells: seq<Cell>)
    requires ViewOk(v) && Linked(blocks, arenas, first, v) && i < |v| && j < |v[i].cells|
    requires forall x: nat :: x < v[i].cells[j].addr || x >= v[i].cells[j].End() ==>
               (x in blocks ==> x in after && after[x] == blocks[x])
    requires LinkedCells(after, cells) && AddrAt(cells, 0) == AddrAt(v[i].cells, 0)
    ensures Linked(after, arenas, first, v[i := v[i].(cells := cells)])
  {
    hide ViewOk, LinkedCells, LinkedArenas;
    LinkAllOthers(blocks, after, v, i, j);
    LinkedArenasAgain(arenas, first, v, i, cells);
  }

  lemma LinkedTake(blocks: map<nat, BlockHeader>, arenas: map<nat, ArenaHeader>, first: nat, h: HeapState, total: nat,
                   i: nat, j: nat, n: nat)
    requires HeapOk(h, total) && Linked(blocks, arenas, first, h.v) && n % ALIGN == 0
    requires i < |h.v| && j < |h.v[i].cells| && Fits(h.v[i].cells[j], n)
    ensures var b := h.v[i].cells[j].addr;
            && b in blocks && blocks[b] == BlockHeader(h.v[i].cells[j].size, true, AddrAt(h.v[i].cells, j + 1))
            && Linked(TakenHeaders(blocks, b, n), arenas, first, TakeAt(h.v, i, j, n))
            && HeapOk(h.(v := TakeAt(h.v, i, j, n)), total)
  {
    hide TakeCell, ViewOk, Tiles, Linked, HeapOk, LinkedCells, Live;
    var a := h.v[i];
    ArenaParts(blocks, arenas, first, h, total, i, j);
    KmallocTakes(h, total, i, j, n);
    LinkTake(blocks, a.cells, a.base + ARENA_HDR, a.End(), j, n);
    TakeFirst(a.cells, j, n);
    LinkedAgain(blocks, TakenHeaders(blocks, a.cells[j].addr, n), arenas, first, h.v, i, j, TakeCell(a.cells, j, n));
  }

  /** On a block large enough, the header writes of alloc_from_block take it from the view. */
  lemma AllocLinked(blocks: map<nat, BlockHeader>, arenas: map<nat, ArenaHeader>, first: nat, h: HeapState, total: nat,
                    i: nat, j: nat, n: U64Value)
    requires HeapOk(h, total) && Linked(blocks, arenas, first, h.v) && total * FRAME_SIZE <= U64 && n % ALIGN == 0
    requires i < |h.v| && j < |h.v[i].cells| && h.v[i].cells[j].free
    ensures h.v[i].cells[j].addr in blocks
    ensures n <= h.v[i].cells[j].size ==>
              && HeapOk(HeapState(TakeAt(h.v, i, j, n), h.used), total)
              && Linked(HeadersIn64(blocks, h.v[i].cells[j].addr, n), arenas, first, TakeAt(h.v, i, j, n))
  {
    hide HeapOk, Linked, TakeAt, ViewOk, Tiles, LinkedCells, HeadersIn64, TakenHeaders;
    ArenaParts(blocks, arenas, first, h, total, i, j);
    CellInMemory(h, total, i, j);
    if n <= h.v[i].cells[j].size {
      LinkedTake(blocks, arenas, first, h, total, i, j, n);
      TakenIn64(blocks, h.v[i].cells[j].addr, n);
    }
  }

  lemma ArenaParts(blocks: map<nat, BlockHeader>, arenas: map<nat, ArenaHeader>, first: nat, h: HeapState, total: nat,
                   i: nat, j: nat)
    requires HeapOk(h, total) && Linked(blocks, arenas, first, h.v) && i < |h.v| && j < |h.v[i].cells|
    ensures ViewOk(h.v) && LinkedCells(blocks, h.v[i].cells)
    ensures Tiles(h.v[i].cells, h.v[i].base + ARENA_HDR, h.v[i].End())
    ensures var c := h.v[i].cells[j];
            c.addr in blocks && blocks[c.addr] == BlockHeader(c.size, c.free, AddrAt(h.v[i].cells, j + 1))
  {
  }

  lemma TakeFirst(cells: seq<Cell>, j: nat, n: nat)
    requires j < |cells| && n <= cells[j].size
    ensures AddrAt(TakeCell(cells, j, n), 0) == AddrAt(cells, 0)
  {
  }

  /** The header writes of kfree. */
  function GivenHeaders(blocks: map<nat, BlockHeader>, b: nat): map<nat, BlockHeader>
    requires b in blocks && (blocks[b].next != 0 ==> blocks[b].next in blocks)
  {
    var h := blocks[b];
    if h.next != 0 && blocks[h.next].free then
      blocks[b := BlockHeader(h.size + HDR + blocks[h.next].size, true, blocks[h.next].next)]
    else blocks[b := h.(free := true)]
  }

  lemma LinkGive(blocks: map<nat, BlockHeader>, cells: seq<Cell>, start: nat, end: nat, j: nat)
    requires LinkedCells(blocks, cells) && Tiles(cells, start, end) && start > 0 && j < |cells|
    ensures var b := cells[j].addr;
            && b in blocks && blocks[b].next != b && (blocks[b].next != 0 <==> j + 1 < |cells|) && (blocks[b].next != 0 ==> blocks[b].next in blocks)
            && LinkedCells(GivenHeaders(blocks, b), GiveCell(cells, j))
            && AddrAt(GiveCell(cells, j), 0) == AddrAt(cells, 0)
  {
    hide Tiles, LinkedCells, GiveCell;
    AddressesApart(cells, start, end, j);
    CellInside(cells, start, end, j);
    if j + 1 < |cells| {
      CellsInOrder(cells, start, end, j, j + 1);
    }
    LinkNext(blocks, cells, j);
    if j + 1 < |cells| && cells[j + 1].free {
      LinkMerge(blocks, cells, j);
    } else {
      LinkMark(blocks, cells, j);
    }
  }

  lemma LinkNext(blocks: map<nat, BlockHeader>, cells: seq<Cell>, j: nat)
    requires LinkedCells(blocks, cells) && j < |cells|
    requires j + 1 < |cells| ==> cells[j + 1].addr > cells[j].addr
    ensures var b := cells[j].addr;
            && b in blocks && (b > 0 ==> blocks[b].next != b) && (blocks[b].next != 0 <==> j + 1 < |cells|)
            && (blocks[b].next != 0 ==> blocks[b].next in blocks)
    ensures AddrAt(GiveCell(cells, j), 0) == AddrAt(cells, 0)
  {
  }

  lemma LinkMark(blocks: map<nat, BlockHeader>, cells: seq<Cell>, j: nat)
    requires LinkedCells(blocks, cells) && j < |cells| && !(j + 1 < |cells| && cells[j + 1].free)
    requires j + 1 < |cells| ==> cells[j + 1].addr != 0
    requires forall k: nat :: k < |cells| && k != j ==> cells[k].addr < cells[j].addr || cells[k].addr >= cells[j].End()
    ensures LinkedCells(GivenHeaders(blocks, cells[j].addr), GiveCell(cells, j))
  {
    var t := GiveCell(cells, j);
    var after := GivenHeaders(blocks, cells[j].addr);
    forall k: nat | k < |t|
      ensures t[k].addr in after && after[t[k].addr] == BlockHeader(t[k].size, t[k].free, AddrAt(t, k + 1))
    {
      assert AddrAt(t, k + 1) == AddrAt(cells, k + 1);
    }
  }

  lemma LinkMerge(blocks: map<nat, BlockHeader>, cells: seq<Cell>, j: nat)
    requires LinkedCells(blocks, cells) && j + 1 < |cells| && cells[j + 1].free && cells[j + 1].addr != 0
    requires forall k: nat :: k < |cells| && k != j ==> cells[k].addr < cells[j].addr || cells[k].addr >= cells[j].End()
    ensures LinkedCells(GivenHeaders(blocks, cells[j].addr), GiveCell(cells, j))
  {
    var t := GiveCell(cells, j);
    var after := GivenHeaders(blocks, cells[j].addr);
    forall k: nat | k < |t|
      ensures t[k].addr in after && after[t[k].addr] == BlockHeader(t[k].size, t[k].free, AddrAt(t, k + 1))
    {
      if k > j {
        assert t[k] == cells[k + 1] && AddrAt(t, k + 1) == AddrAt(cells, k + 2);
      } else if k < j {
        assert t[k] == cells[k] && AddrAt(t, k + 1) == AddrAt(cells, k + 1);
      } else {
        assert AddrAt(t, k + 1) == AddrAt(cells, k + 2);
      }
    }
  }

  lemma LinkedGive(blocks: map<nat, BlockHeader>, arenas: map<nat, ArenaHeader>, first: nat, h: HeapState, total: nat,
                   i: nat, j: nat)
    requires HeapOk(h, total) && Linked(blocks, arenas, first, h.v)
    requires i < |h.v| && j < |h.v[i].cells| && !h.v[i].cells[j].free
    ensures var b := h.v[i].cells[j].addr;
            && b in blocks && blocks[b].next != b && (blocks[b].next != 0 ==> blocks[b].next in blocks)
            && Linked(GivenHeaders(blocks, b), arenas, first, Kfree(h, i, j).v)
            && HeapOk(Kfree(h, i, j), total)
  {
    hide GiveCell, ViewOk, Tiles, Linked, HeapOk, LinkedCells, Live;
    var a := h.v[i];
    ArenaParts(blocks, arenas, first, h, total, i, j);
    KfreeFacts(h, total, i, j);
    ArenaStart(h, total, i);
    LinkGive(blocks, a.cells, a.base + ARENA_HDR, a.End(), j);
    LinkedAgain(blocks, GivenHeaders(blocks, a.cells[j].addr), arenas, first, h.v, i, j, GiveCell(a.cells, j));
  }

  lemma ArenaStart(h: HeapState, total: nat, i: nat)
    requires HeapOk(h, total) && i < |h.v|
    ensures h.v[i].base > 0 && |h.v[i].cells| > 0 && h.v[i].cells[0].addr == h.v[i].base + ARENA_HDR
  {
  }

  /** The arenas behind a new one keep base and cells away from its own. */
  lemma BehindNew(v: View, a: Arena, p: nat)
    requires ViewOk([a] + v) && |a.cells| == 1 && p < |v|
    ensures v[p].base != a.base
    ensures forall k: nat :: k < |v[p].cells| ==> v[p].cells[k].addr != a.cells[0].addr
  {
    hide ViewOk;
    var w := [a] + v;
    assert w[0] == a && w[p + 1] == v[p];
    TwoBases(w, p + 1);
    forall k: nat | k < |v[p].cells|
      ensures v[p].cells[k].addr != a.cells[0].addr
    {
      Disjoint(w, p + 1, k, 0, 0);
    }
  }

  lemma TwoBases(w: View, p: nat)
    requires ViewOk(w) && 0 < p < |w|
    ensures w[p].base != w[0].base
  {
    CellInside(w[p].cells, w[p].base + ARENA_HDR, w[p].End(), 0);
    CellInside(w[0].cells, w[0].base + ARENA_HDR, w[0].End(), 0);
  }

  lemma CellsKept(blocks: map<nat, BlockHeader>, addr: nat, h: BlockHeader, cells: seq<Cell>)
    requires LinkedCells(blocks, cells) && forall k: nat :: k < |cells| ==> cells[k].addr != addr
    ensures LinkedCells(blocks[addr := h], cells)
  {
  }

  lemma OneCell(blocks: map<nat, BlockHeader>, cells: seq<Cell>)
    requires |cells| == 1
    ensures LinkedCells(blocks[cells[0].addr := BlockHeader(cells[0].size, cells[0].free, 0)], cells)
  {
  }

  lemma ArenasGrow(arenas: map<nat, ArenaHeader>, first: nat, v: View, a: Arena)
    requires LinkedArenas(arenas, first, v) && |a.cells| == 1 && forall p: nat :: p < |v| ==> v[p].base != a.base
    ensures LinkedArenas(arenas[a.base := ArenaHeader(first, a.frames, a.cells[0].addr)], a.base, [a] + v)
  {
    var w := [a] + v;
    var after := arenas[a.base := ArenaHeader(first, a.frames, a.cells[0].addr)];
    assert AddrAt(a.cells, 0) == a.cells[0].addr;
    forall p: nat | p < |w|
      ensures w[p].base in after
      ensures after[w[p].base] == ArenaHeader(BaseAt(w, p + 1), w[p].frames, AddrAt(w[p].cells, 0))
    {
      hide AddrAt;
      assert BaseAt(w, p + 1) == BaseAt(v, p);
      if p > 0 {
        assert w[p] == v[p - 1] && BaseAt(v, p) == BaseAt(v, p - 1 + 1);
      }
    }
  }

  /** A fresh arena in front of the list. */
  lemma LinkedGrow(blocks: map<nat, BlockHeader>, arenas: map<nat, ArenaHeader>, first: nat, v: View, a: Arena)
    requires Linked(blocks, arenas, first, v) && ViewOk([a] + v) && |a.cells| == 1
    ensures Linked(blocks[a.cells[0].addr := BlockHeader(a.cells[0].size, a.cells[0].free, 0)],
                   arenas[a.base := ArenaHeader(first, a.frames, a.cells[0].addr)], a.base, [a] + v)
  {
    hide ViewOk, LinkedArenas, LinkedCells;
    var w := [a] + v;
    var h := BlockHeader(a.cells[0].size, a.cells[0].free, 0);
    forall p: nat | p < |v|
      ensures LinkedCells(blocks[a.cells[0].addr := h], v[p].cells) && v[p].base != a.base
    {
      BehindNew(v, a, p);
      CellsKept(blocks, a.cells[0].addr, h, v[p].cells);
    }
    OneCell(blocks, a.cells);
    ArenasGrow(arenas, first, v, a);
    assert forall p: nat :: p < |w| ==> w[p] == if p == 0 then a else v[p - 1];
  }

  lemma AddrIsNull(h: HeapState, total: nat, i: nat, j: nat)
    requires HeapOk(h, total) && i < |h.v| && j <= |h.v[i].cells|
    ensures AddrAt(h.v[i].cells, j) == 0 <==> j == |h.v[i].cells|
  {
    if j < |h.v[i].cells| {
      CellInside(h.v[i].cells, h.v[i].base + ARENA_HDR, h.v[i].End(), j);
    }
  }

  lemma BaseIsNull(h: HeapState, total: nat, i: nat)
    requires HeapOk(h, total) && i <= |h.v|
    ensures BaseAt(h.v, i) == 0 <==> i == |h.v|
  {
  }

  lemma GrowFramesIs(n: U64Value)
    ensures var frames := ((ARENA_HDR + HDR + n) % U64 + FRAME_SIZE - 1) % U64 / FRAME_SIZE;
            GrowFrames(n) == if frames < MIN_FRAMES then MIN_FRAMES else frames
  {
  }

  lemma GrowBase(h: HeapState, total: nat, n: U64Value, start: nat)
    requires HeapOk(h, total) && FirstRun(h.used, total, GrowFrames(n), 0) == Some(start)
    ensures start > 0 && ViewOk([NewArena(start, n)] + h.v)
    ensures HeapOk(HeapState([NewArena(start, n)] + h.v, h.used + Span(start, GrowFrames(n))), total)
  {
    GrowFacts(h, total, n, start);
    FirstRunIsLowest(h.used, total, GrowFrames(n), 0);
  }

  lemma LinkedNew(blocks: map<nat, BlockHeader>, arenas: map<nat, ArenaHeader>, first: nat, h: HeapState, total: nat,
                  n: U64Value, start: nat)
    requires HeapOk(h, total) && Linked(blocks, arenas, first, h.v)
    requires FirstRun(h.used, total, GrowFrames(n), 0) == Some(start)
    ensures var base := start * FRAME_SIZE;
            && base > 0 && GrowSize(n) == GrowFrames(n) * FRAME_SIZE - ARENA_HDR - HDR
            && HeapOk(HeapState([NewArena(start, n)] + h.v, h.used + Span(start, GrowFrames(n))), total)
            && Linked(blocks[base + ARENA_HDR := BlockHeader(GrowSize(n), true, 0)],
                      arenas[base := ArenaHeader(first, GrowFrames(n), base + ARENA_HDR)], base, [NewArena(start, n)] + h.v)
  {
    hide HeapOk, Linked, ViewOk, Span, FirstRun, GrowFrames;
    GrowBase(h, total, n, start);
    LinkedGrow(blocks, arenas, first, h.v, NewArena(start, n));
  }

  lemma ZeroSize(h: HeapState, total: nat)
    ensures !Overrun(h, total, 0) && HeapView.Kmalloc(h, total, 0) == (h, 0)
  {
  }

  /** kmalloc case by case: a block found ... */
  lemma KmallocFound(h: HeapState, total: nat, size: U64Value, i: nat, j: nat)
    requires size > 0 && FirstFit(h.v, Aligned(size), 0) == Some((i, j))
    ensures i < |h.v| && j < |h.v[i].cells| && Fits(h.v[i].cells[j], Aligned(size)) && !Overrun(h, total, size)
    ensures HeapView.Kmalloc(h, total, size)
         == (h.(v := TakeAt(h.v, i, j, Aligned(size))), h.v[i].cells[j].Payload())
  {
    FirstFitIsFirst(h.v, Aligned(size), 0);
  }

  /** ... none, and no frames for a new arena ... */
  lemma KmallocNone(h: HeapState, total: nat, size: U64Value)
    requires size > 0 && FirstFit(h.v, Aligned(size), 0) == None
    requires FirstRun(h.used, total, GrowFrames(Aligned(size)), 0) == None
    ensures !Overrun(h, total, size) && HeapView.Kmalloc(h, total, size) == (h, 0)
  {
  }

  /** ... or a new arena, which covers the request or does not. */
  lemma KmallocGrown(h: HeapState, total: nat, size: U64Value, start: nat)
    requires size > 0 && FirstFit(h.v, Aligned(size), 0) == None
    requires FirstRun(h.used, total, GrowFrames(Aligned(size)), 0) == Some(start)
    ensures var n := Aligned(size);
            var a := NewArena(start, n);
            && (Overrun(h, total, size) <==> n > a.cells[0].size)
            && a.base == start * FRAME_SIZE && |a.cells| == 1 && a.cells[0].free && a.cells[0].addr == a.base + ARENA_HDR
            && a.cells[0].size == GrowSize(n)
            && (!Overrun(h, total, size) ==>
                  HeapView.Kmalloc(h, total, size)
                  == (HeapState(TakeAt([a] + h.v, 0, 0, n), h.used + Span(start, GrowFrames(n))), a.cells[0].Payload()))
  {
  }

  /** What kmalloc returns and the headers it leaves when the sizes wrap. */
  ghost predicate Overran(h: HeapState, total: nat, size: U64Value, ptr: nat, blocks: map<nat, BlockHeader>) {
    var n := Aligned(size);
    Picked(h, total, n).Some?
    && var c := Picked(h, total, n).value;
       && ptr == c.Payload() && SplitAddr(c, n) in blocks
       && c.addr in blocks && blocks[c.addr] == BlockHeader(n, false, SplitAddr(c, n))
       && (SplitAddr(c, n) != c.addr ==> blocks[SplitAddr(c, n)] == BlockHeader((Remainder(c, n) - HDR) % U64, true, 0))
  }

  lemma OverrunHeaders(h: HeapState, total: nat, size: U64Value, start: nat, grown: map<nat, BlockHeader>)
    requires HeapOk(h, total) && total * FRAME_SIZE <= U64 && Overrun(h, total, size)
    requires FirstRun(h.used, total, GrowFrames(Aligned(size)), 0) == Some(start)
    requires var c := NewArena(start, Aligned(size)).cells[0];
             c.addr in grown && grown[c.addr] == BlockHeader(c.size, c.free, 0)
    ensures var n := Aligned(size);
            var c := NewArena(start, n).cells[0];
            Overran(h, total, size, c.Payload(), HeadersIn64(grown, c.addr, n))
  {
    hide HeapOk, FirstFit, FirstRun, GrowFrames, Aligned, Picked;
    OverrunSizes(h, total, size);
    OverrunWrites(h, total, size, start);
  }

  lemma FirstBlock(blocks: map<nat, BlockHeader>, arenas: map<nat, ArenaHeader>, first: nat, h: HeapState, total: nat)
    requires HeapOk(h, total) && Linked(blocks, arenas, first, h.v) && |h.v| > 0
    ensures |h.v[0].cells| > 0 && first in arenas && arenas[first].first == h.v[0].cells[0].addr
    ensures first == h.v[0].base
  {
  }

  class KernelHeap {
    var arenaList: nat
    var arenas: map<nat, ArenaHeader>
    var blocks: map<nat, BlockHeader>
    const pmm: FrameBitmap
    ghost var view: View

    ghost predicate Valid()
      reads this, pmm, pmm.bitmap
    {
      && pmm.Valid() && pmm.total * FRAME_SIZE <= U64
      && HeapOk(HeapState(view, pmm.Used()), pmm.total)
      && Linked(blocks, arenas, arenaList, view)
    }

    ghost function State(): HeapState
      requires pmm.Valid()
      reads this, pmm, pmm.bitmap
    {
      HeapState(view, pmm.Used())
    }

    constructor (pmm: FrameBitmap)
      requires pmm.Valid() && pmm.total * FRAME_SIZE <= U64 && 0 in pmm.Used()
      ensures Valid() && State() == HeapState([], pmm.Used()) && this.pmm == pmm
    {
      this.pmm := pmm;
      arenaList := 0;
      arenas := map[];
      blocks := map[];
      view := [];
    }

    /** Writes the header of the block, and of the free remainder if it is split off, in 64-bit arithmetic;
        nothing else. On a block that is large enough, that takes the block from the view. */
    method AllocFromBlock(block: nat, size: U64Value, ghost i: nat, ghost j: nat) returns (ptr: nat)
      requires Valid() && size % ALIGN == 0
      requires i < |view| && j < |view[i].cells| && view[i].cells[j].addr == block && view[i].cells[j].free
      modifies this`blocks, this`view
      ensures ptr == block + HDR && block in old(blocks) && blocks == HeadersIn64(old(blocks), block, size)
      ensures size <= old(view[i].cells[j].size) ==> Valid() && view == TakeAt(old(view), i, j, size)
    {
      hide TakeAt, Tiles, Span, HeapOk, Linked, TakenHeaders, ViewOk, LinkedCells,
        FrameBitmap.Used, FrameBitmap.Valid, TestByte, Pmm.Free;
      AllocLinked(blocks, arenas, arenaList, State(), pmm.total, i, j, size);
      if size <= view[i].cells[j].size {
        view := TakeAt(view, i, j, size);
      }
      ghost var before := blocks;
      var remainder := (blocks[block].size - size) % U64;
      if remainder > HDR + ALIGN {
        var split := (block + HDR + size) % U64;
        blocks := blocks[split := BlockHeader(remainder - HDR, true, blocks[block].next)];
        blocks := blocks[block := BlockHeader(size, blocks[block].free, split)];
      }
      blocks := blocks[block := blocks[block].(free := false)];
      assert blocks == HeadersIn64(before, block, size);
      ptr := block + HDR;
    }

    method GrowHeap(minBytes: U64Value) returns (arena: nat)
      requires Valid()
      modifies this`arenaList, this`arenas, this`blocks, this`view, pmm`freeFrames, pmm.bitmap
      ensures Valid()
      ensures match FirstRun(old(pmm.Used()), pmm.total, GrowFrames(minBytes), 0)
              case None => arena == 0 && State() == old(State()) && blocks == old(blocks)
              case Some(start) =>
                && arena == start * FRAME_SIZE && arena > 0
                && State() == HeapState([NewArena(start, minBytes)] + old(view),
                                        old(pmm.Used()) + Span(start, GrowFrames(minBytes)))
                && blocks == old(blocks)[arena + ARENA_HDR := BlockHeader(GrowSize(minBytes), true, 0)]
    {
      hide HeapOk, Linked, ViewOk, Tiles, Live, Span, FirstRun, GrowFrames, NewArena, GrowSize,
        FrameBitmap.Used, FrameBitmap.Valid, TestByte, Pmm.Free;
      var needed := (ARENA_HDR + HDR + minBytes) % U64;
      var frames := (needed + FRAME_SIZE - 1) % U64 / FRAME_SIZE;
      if frames < MIN_FRAMES {
        frames := MIN_FRAMES;
      }
      assert frames == GrowFrames(minBytes) by { GrowFramesIs(minBytes); }
      ghost var before := State();
      ghost var run := FirstRun(before.used, pmm.total, frames, 0);
      var base := pmm.AllocFrames(frames);
      if run.Some? {
        LinkedNew(blocks, arenas, arenaList, before, pmm.total, minBytes, run.value);
      }
      if base == 0 {
        return 0;
      }
      arenas := arenas[base := ArenaHeader(arenaList, frames, base + ARENA_HDR)];
      blocks := blocks[base + ARENA_HDR := BlockHeader(frames * FRAME_SIZE - ARENA_HDR - HDR, true, 0)];
      arenaList := base;
      view := [NewArena(run.value, minBytes)] + view;
      return base;
    }

    /** The two nested searches of kmalloc; 0 when they come out empty. */
    method FindBlock(aligned: nat) returns (block: nat, ghost i: nat, ghost j: nat)
      requires Valid()
      ensures match FirstFit(view, aligned, 0)
              case None => block == 0
              case Some((p, q)) =>
                i == p < |view| && j == q < |view[p].cells| && block == view[p].cells[q].addr && block != 0
    {
      hide HeapOk, ViewOk, Tiles, Live, LinkedCells, Span,
        FrameBitmap.Used, FrameBitmap.Valid, TestByte, Pmm.Free;
      FirstFitIsFirst(view, aligned, 0);
      var arena := arenaList;
      i, j, block := 0, 0, 0;
      BaseIsNull(State(), pmm.total, 0);
      while arena != 0
        invariant i <= |view| && arena == BaseAt(view, i) && (arena == 0 <==> i == |view|)
        invariant FirstFit(view, aligned, i) == FirstFit(view, aligned, 0)
        decreases |view| - i
      {
        ArenaStart(State(), pmm.total, i);
        block := arenas[arena].first;
        j := 0;
        while block != 0
          invariant j <= |view[i].cells| && block == AddrAt(view[i].cells, j) && (block == 0 <==> j == |view[i].cells|)
          invariant FirstFitIn(view[i].cells, aligned, j) == FirstFitIn(view[i].cells, aligned, 0)
          decreases |view[i].cells| - j
        {
          ArenaParts(blocks, arenas, arenaList, State(), pmm.total, i, j);
          if blocks[block].free && blocks[block].size >= aligned {
            return;
          }
          block := blocks[block].next;
          j := j + 1;
          AddrIsNull(State(), pmm.total, i, j);
        }
        arena := arenas[arena].next;
        i := i + 1;
        BaseIsNull(State(), pmm.total, i);
      }
      block := 0;
    }

    /** For requests whose sizes wrap, the block handed out and the headers written; otherwise, kmalloc. */
    method Kmalloc(size: U64Value) returns (ptr: nat)
      requires Valid()
      modifies this`arenaList, this`arenas, this`blocks, this`view, pmm`freeFrames, pmm.bitmap
      ensures !Overrun(old(State()), pmm.total, size) ==>
                Valid() && (State(), ptr) == HeapView.Kmalloc(old(State()), pmm.total, size)
      ensures Overrun(old(State()), pmm.total, size) ==> Overran(old(State()), pmm.total, size, ptr, blocks)
    {
      hide HeapOk, Linked, Aligned, GrowFrames, FirstRun, FirstFit, TakeAt, TakeCell, Span, GrowSize, HeadersIn64, Remainder,
        SplitAddr, Picked, ViewOk, Tiles, LinkedCells, Live, Overran, HeapView.Kmalloc, Overrun, NewArena,
        FrameBitmap.Used, FrameBitmap.Valid, TestByte, Pmm.Free;
      ZeroSize(State(), pmm.total);
      if size == 0 {
        return 0;
      }
      var aligned := Aligned(size);
      RequestSizes(size);
      FirstFitIsFirst(view, aligned, 0);
      var block, i, j := FindBlock(aligned);
      ghost var before := State();
      if block != 0 {
        KmallocFound(before, pmm.total, size, i, j);
        ptr := AllocFromBlock(block, aligned, i, j);
        return;
      }
      ghost var run := FirstRun(before.used, pmm.total, GrowFrames(aligned), 0);
      if run.Some? {
        KmallocGrown(before, pmm.total, size, run.value);
      } else {
        KmallocNone(before, pmm.total, size);
      }
      var arena := GrowHeap(aligned);
      if arena == 0 {
        return 0;
      }
      FirstBlock(blocks, arenas, arenaList, State(), pmm.total);
      ghost var grown := blocks;
      ptr := AllocFromBlock(arenas[arena].first, aligned, 0, 0);
      if Overrun(before, pmm.total, size) {
        OverrunHeaders(before, pmm.total, size, run.value, grown);
      }
    }

    /** `ptr` must be NULL or the payload of a live block. */
    method Kfree(ptr: nat, ghost i: nat, ghost j: nat)
      requires Valid()
      requires ptr != 0 ==> i < |view| && j < |view[i].cells| && !view[i].cells[j].free && view[i].cells[j].Payload() == ptr
      modifies this`blocks, this`view
      ensures Valid()
      ensures State() == if ptr == 0 then old(State()) else HeapView.Kfree(old(State()), i, j)
      ensures forall x: nat :: x + HDR != ptr ==>
                (x in blocks <==> x in old(blocks)) && (x in blocks ==> blocks[x] == old(blocks)[x])
    {
      hide HeapOk, Linked, GiveCell,
        FrameBitmap.Used, FrameBitmap.Valid, TestByte, Pmm.Free;
      if ptr == 0 {
        return;
      }
      var block := ptr - HDR;
      LinkedGive(blocks, arenas, arenaList, State(), pmm.total, i, j);
      ghost var before := blocks;
      blocks := blocks[block := blocks[block].(free := true)];
      var next := blocks[block].next;
      if next != 0 && blocks[next].free {
        blocks := blocks[block := blocks[block].(size := blocks[block].size + HDR + blocks[next].size)];
        blocks := blocks[block := blocks[block].(next := blocks[next].next)];
      }
      assert blocks == GivenHeaders(before, block);
      view := HeapView.Kfree(State(), i, j).v;
    }
  }
}

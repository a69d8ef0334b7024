/** The kernel heap of mm/heap.c seen as arenas, each a row of cells (header and payload) that tiles it:
    first fit, splitting, forward-only coalescing, and what they keep. */
module HeapView {
  import opened Pmm

  const HDR: nat := 24         // sizeof(heap_block_t)
  const ARENA_HDR: nat := 24   // sizeof(heap_arena_t)
  const MIN_FRAMES: nat := 16  // HEAP_MIN_ARENA_FRAMES
  const ALIGN: nat := 8        // HEAP_ALIGN

  /** One block: header at addr, payload of size bytes behind it. */
  datatype Cell = Cell(addr: nat, size: nat, free: bool) {
    function End(): nat { addr + HDR + size }
    function Payload(): nat { addr + HDR }
  }

  datatype Arena = Arena(base: nat, frames: nat, cells: seq<Cell>) {
    function End(): nat { base + frames * FRAME_SIZE }
  }

  type View = seq<Arena>

  // ---------------------------------------------------------------- shape

  /** The cells lie end to end from start to end, in 8-byte units. */
  ghost predicate Tiles(cells: seq<Cell>, start: nat, end: nat) {
    && |cells| > 0 && cells[0].addr == start && cells[|cells| - 1].End() == end && start % ALIGN == 0
    && (forall k :: 0 <= k < |cells| - 1 ==> cells[k].End() == cells[k + 1].addr)
    && (forall k :: 0 <= k < |cells| ==> cells[k].size % ALIGN == 0)
  }

  ghost predicate ArenaOk(a: Arena) {
    a.base > 0 && a.base % FRAME_SIZE == 0 && Tiles(a.cells, a.base + ARENA_HDR, a.End())
  }

  ghost predicate ViewOk(v: View) {
    && (forall i :: 0 <= i < |v| ==> ArenaOk(v[i]))
    && (forall i, j :: 0 <= i < j < |v| ==> v[i].End() <= v[j].base || v[j].End() <= v[i].base)
  }

  lemma {:induction false} CellsInOrder(cells: seq<Cell>, start: nat, end: nat, j: nat, k: nat)
    requires Tiles(cells, start, end) && j < k < |cells|
    ensures cells[j].End() <= cells[k].addr
    decreases k - j
  {
    if j + 1 < k {
      CellsInOrder(cells, start, end, j + 1, k);
    }
  }

  lemma CellInside(cells: seq<Cell>, start: nat, end: nat, k: nat)
    requires Tiles(cells, start, end) && k < |cells|
    ensures start <= cells[k].addr && cells[k].End() <= end
  {
    if k > 0 { CellsInOrder(cells, start, end, 0, k); }
    if k < |cells| - 1 { CellsInOrder(cells, start, end, k, |cells| - 1); }
  }

  lemma {:induction false} CellAligned(cells: seq<Cell>, start: nat, end: nat, k: nat)
    requires Tiles(cells, start, end) && k < |cells|
    ensures cells[k].addr % ALIGN == 0 && cells[k].Payload() % ALIGN == 0
    decreases k
  {
    if k > 0 {
      CellAligned(cells, start, end, k - 1);
    }
  }

  function Bytes(cells: seq<Cell>): nat {
    if cells == [] then 0 else Bytes(cells[..|cells| - 1]) + HDR + cells[|cells| - 1].size
  }

  /** Headers and payloads of an arena add up to exactly the arena without its own header. */
  lemma {:induction false} TilingIsExact(cells: seq<Cell>, start: nat, end: nat)
    requires Tiles(cells, start, end)
    ensures Bytes(cells) == end - start
    decreases |cells|
  {
    var n := |cells| - 1;
    if n > 0 {
      assert cells[n - 1].End() == cells[n].addr;
      TilingIsExact(cells[..n], start, cells[n].addr);
    } else {
      assert cells[..n] == [];
    }
  }

  /** No two cells of the heap overlap, header or payload; every payload is 8-aligned. */
  lemma Disjoint(v: View, i: nat, j: nat, i': nat, j': nat)
    requires ViewOk(v) && i < |v| && j < |v[i].cells| && i' < |v| && j' < |v[i'].cells|
    requires i != i' || j != j'
    ensures var c, c' := v[i].cells[j], v[i'].cells[j'];
            (c.End() <= c'.addr || c'.End() <= c.addr) && c.Payload() % ALIGN == 0
  {
    var a, a' := v[i], v[i'];
    CellInside(a.cells, a.base + ARENA_HDR, a.End(), j);
    CellInside(a'.cells, a'.base + ARENA_HDR, a'.End(), j');
    CellAligned(a.cells, a.base + ARENA_HDR, a.End(), j);
    if i == i' {
      if j < j' { CellsInOrder(a.cells, a.base + ARENA_HDR, a.End(), j, j'); }
      else { CellsInOrder(a.cells, a.base + ARENA_HDR, a.End(), j', j); }
    }
  }

  // ---------------------------------------------------------------- allocation inside an arena

  predicate Splits(c: Cell, n: nat) {
    c.size > n + HDR + ALIGN
  }

  /** alloc_from_block on cell j. */
  function TakeCell(cells: seq<Cell>, j: nat, n: nat): seq<Cell>
    requires j < |cells| && n <= cells[j].size
  {
    var c := cells[j];
    if Splits(c, n) then
      cells[..j] + [Cell(c.addr, n, false), Cell(c.addr + HDR + n, c.size - n - HDR, true)] + cells[j + 1..]
    else cells[j := c.(free := false)]
  }

  /** kfree of cell j: mark it free, absorb the right neighbour if that is free. */
  function GiveCell(cells: seq<Cell>, j: nat): seq<Cell>
    requires j < |cells|
  {
    var c := cells[j];
    if j + 1 < |cells| && cells[j + 1].free then
      cells[..j] + [Cell(c.addr, c.size + HDR + cells[j + 1].size, true)] + cells[j + 2..]
    else cells[j := c.(free := true)]
  }

  lemma TakeTiles(cells: seq<Cell>, start: nat, end: nat, j: nat, n: nat)
    requires Tiles(cells, start, end) && j < |cells| && n <= cells[j].size && n % ALIGN == 0
    ensures Tiles(TakeCell(cells, j, n), start, end)
  {
    var t := TakeCell(cells, j, n);
    CellAligned(cells, start, end, j);
    if Splits(cells[j], n) {
      EightsSubtract(cells[j].size, n);
      ReplaceCell(cells, start, end, j, 1, [t[j], t[j + 1]]);
    } else {
      ReplaceCell(cells, start, end, j, 1, [t[j]]);
      assert t == cells[..j] + [t[j]] + cells[j + 1..];
    }
  }

  lemma EightsSubtract(x: nat, y: nat)
    requires x % ALIGN == 0 && y % ALIGN == 0 && y + HDR <= x
    ensures (x - y - HDR) % ALIGN == 0
  {
  }

  /** Replacing the stretch cells[j..j+m] by cells that tile the same bytes keeps the row a tiling. */
  lemma ReplaceCell(cells: seq<Cell>, start: nat, end: nat, j: nat, m: nat, mid: seq<Cell>)
    requires Tiles(cells, start, end) && m > 0 && j + m <= |cells|
    requires Tiles(mid, cells[j].addr, cells[j + m - 1].End())
    ensures Tiles(cells[..j] + mid + cells[j + m..], start, end)
  {
    var t := cells[..j] + mid + cells[j + m..];
    forall k | 0 <= k < |t| - 1
      ensures t[k].End() == t[k + 1].addr
    {
      if k < j {
        assert t[k] == cells[k];
      } else if k < j + |mid| {
        assert t[k] == mid[k - j];
      } else {
        assert t[k] == cells[k - |mid| + m] && t[k + 1] == cells[k - |mid| + m + 1];
      }
    }
  }

  lemma GiveTiles(cells: seq<Cell>, start: nat, end: nat, j: nat)
    requires Tiles(cells, start, end) && j < |cells|
    ensures Tiles(GiveCell(cells, j), start, end)
  {
    var t := GiveCell(cells, j);
    CellAligned(cells, start, end, j);
    if j + 1 < |cells| && cells[j + 1].free {
      ReplaceCell(cells, start, end, j, 2, [t[j]]);
    } else {
      ReplaceCell(cells, start, end, j, 1, [t[j]]);
      assert t == cells[..j] + [t[j]] + cells[j + 1..];
    }
  }

  /** Freeing what a splitting allocation just took restores the arena exactly; without a split it does so
      too, except that a free right neighbour is absorbed. */
  lemma FreeUndoesAlloc(cells: seq<Cell>, j: nat, n: nat)
    requires j < |cells| && cells[j].free && n <= cells[j].size
    ensures GiveCell(TakeCell(cells, j, n), j) ==
            if cells[j].size <= n + 32 && j + 1 < |cells| && cells[j + 1].free then GiveCell(cells, j) else cells
  {
    var t := TakeCell(cells, j, n);
    if Splits(cells[j], n) {
      assert t[..j] == cells[..j] && t[j + 2..] == cells[j + 1..];
    }
  }

  // ---------------------------------------------------------------- first fit

  predicate Fits(c: Cell, n: nat) {
    c.free && c.size >= n
  }

  function FirstFitIn(cells: seq<Cell>, n: nat, k: nat): (j: nat)
    requires k <= |cells|
    decreases |cells| - k
  {
    if k == |cells| || Fits(cells[k], n) then k else FirstFitIn(cells, n, k + 1)
  }

  function FirstFit(v: View, n: nat, i: nat): Option<(nat, nat)>
    requires i <= |v|
    decreases |v| - i
  {
    if i == |v| then None
    else
      var j := FirstFitIn(v[i].cells, n, 0);
      if j < |v[i].cells| then Some((i, j)) else FirstFit(v, n, i + 1)
  }

  lemma {:induction false} FirstFitInIsFirst(cells: seq<Cell>, n: nat, k: nat)
    requires k <= |cells|
    ensures var j := FirstFitIn(cells, n, k);
            k <= j <= |cells| && (j < |cells| ==> Fits(cells[j], n)) && forall l :: k <= l < j ==> !Fits(cells[l], n)
    decreases |cells| - k
  {
    if k < |cells| && !Fits(cells[k], n) {
      FirstFitInIsFirst(cells, n, k + 1);
    }
  }

  /** First fit finds an adequate free cell with none before it in list order, or there is none at all. */
  lemma {:induction false} FirstFitIsFirst(v: View, n: nat, i: nat)
    requires i <= |v|
    ensures match FirstFit(v, n, i)
            case None => forall p, l :: i <= p < |v| && 0 <= l < |v[p].cells| ==> !Fits(v[p].cells[l], n)
            case Some((p, j)) =>
              && i <= p < |v| && j < |v[p].cells| && Fits(v[p].cells[j], n)
              && (forall l :: 0 <= l < j ==> !Fits(v[p].cells[l], n))
              && (forall q, l :: i <= q < p && 0 <= l < |v[q].cells| ==> !Fits(v[q].cells[l], n))
    decreases |v| - i
  {
    if i < |v| {
      FirstFitInIsFirst(v[i].cells, n, 0);
      FirstFitIsFirst(v, n, i + 1);
    }
  }

  // ---------------------------------------------------------------- sizes, in 64-bit arithmetic

  /** align_up(size, HEAP_ALIGN) */
  function Aligned(size: U64Value): U64Value {
    (size + 7) % U64 / 8 * 8
  }

  /** The frames grow_heap asks for. */
  function GrowFrames(n: U64Value): (r: nat)
    ensures r >= MIN_FRAMES
  {
    var needed := (ARENA_HDR + HDR + n) % U64;
    var frames := (needed + FRAME_SIZE - 1) % U64 / FRAME_SIZE;
    if frames < MIN_FRAMES then MIN_FRAMES else frames
  }

  /** A new arena has the larger of sixteen frames and what its two headers and the request need. */
  lemma GrowFramesNumber(n: U64Value)
    requires n + 48 + 4095 < 0x1_0000_0000_0000_0000
    ensures GrowFrames(n) >= 16 && GrowFrames(n) * 4096 >= n + 48
    ensures GrowFrames(n) == 16 || (GrowFrames(n) - 1) * 4096 < n + 48
  {
    var needed := ARENA_HDR + HDR + n;
    assert needed % U64 == needed && (needed + FRAME_SIZE - 1) % U64 == needed + FRAME_SIZE - 1;
  }

  /** The payload of the one block of a new arena. */
  function GrowSize(n: U64Value): nat {
    GrowFrames(n) * FRAME_SIZE - ARENA_HDR - HDR
  }

  const MAX_REQUEST: nat := U64 - 4144

  /** Up to MAX_REQUEST the rounded request covers the request and a new arena covers the rounded request.
      Above, the rounding itself wraps to 0 for the last seven sizes, and grow_heap's sum for the others. */
  lemma RequestSizes(size: U64Value)
    ensures Aligned(size) % ALIGN == 0
    ensures size <= MAX_REQUEST ==> size <= Aligned(size) <= GrowSize(Aligned(size)) && Aligned(size) < size + 8
    ensures MAX_REQUEST < size <= U64 - 8 ==> GrowFrames(Aligned(size)) == MIN_FRAMES && Aligned(size) >= U64 - 4136
    ensures size > U64 - 8 ==> Aligned(size) == 0
  {
    var n := Aligned(size);
    if size <= MAX_REQUEST {
      assert (size + 7) % U64 == size + 7;
      assert size <= n <= MAX_REQUEST;
    } else if size + 7 < U64 {
      assert n >= U64 - 4136;
      assert GrowFrames(n) == MIN_FRAMES;
    } else {
      assert n == 0;
    }
  }

  // ---------------------------------------------------------------- kmalloc and kfree

  /** The heap and the frames in use. */
  datatype HeapState = HeapState(v: View, used: set<nat>)

  function TakeAt(v: View, i: nat, j: nat, n: nat): View
    requires i < |v| && j < |v[i].cells| && n <= v[i].cells[j].size
  {
    v[i := v[i].(cells := TakeCell(v[i].cells, j, n))]
  }

  function NewArena(start: nat, n: U64Value): Arena {
    Arena(start * FRAME_SIZE, GrowFrames(n),
          [Cell(start * FRAME_SIZE + ARENA_HDR, GrowSize(n), true)])
  }

  /** No block fits, and the new arena does not fit the request either: the sizes wrapped around. */
  predicate Overrun(h: HeapState, total: nat, size: U64Value) {
    var n := Aligned(size);
    size > 0 && FirstFit(h.v, n, 0).None? && FirstRun(h.used, total, GrowFrames(n), 0).Some? && n > GrowSize(n)
  }

  function Kmalloc(h: HeapState, total: nat, size: U64Value): (HeapState, nat)
    requires !Overrun(h, total, size)
  {
    if size == 0 then (h, 0)
    else
      var n := Aligned(size);
      FirstFitIsFirst(h.v, n, 0);
      match FirstFit(h.v, n, 0)
      case Some((i, j)) => (h.(v := TakeAt(h.v, i, j, n)), h.v[i].cells[j].Payload())
      case None =>
        match FirstRun(h.used, total, GrowFrames(n), 0)
        case None => (h, 0)
        case Some(start) =>
          var a := NewArena(start, n);
          (HeapState(TakeAt([a] + h.v, 0, 0, n), h.used + Span(start, GrowFrames(n))), a.cells[0].Payload())
  }

  function Kfree(h: HeapState, i: nat, j: nat): HeapState
    requires i < |h.v| && j < |h.v[i].cells|
  {
    h.(v := h.v[i := h.v[i].(cells := GiveCell(h.v[i].cells, j))])
  }

  ghost predicate HeapOk(h: HeapState, total: nat) {
    && ViewOk(h.v) && 0 in h.used && (forall f: nat :: f in h.used ==> f < total)
    && forall i :: 0 <= i < |h.v| ==> Span(h.v[i].base / FRAME_SIZE, h.v[i].frames) <= h.used
  }

  /** The blocks handed out and not yet freed. */
  ghost function LiveIn(cells: seq<Cell>): set<Cell> {
    set c | c in cells && !c.free
  }

  ghost function Live(v: View): set<Cell> {
    set i, c | 0 <= i < |v| && c in LiveIn(v[i].cells) :: c
  }

  lemma CellsDistinct(cells: seq<Cell>, start: nat, end: nat, j: nat)
    requires Tiles(cells, start, end) && j < |cells|
    ensures forall k :: 0 <= k < |cells| && k != j ==> cells[k] != cells[j]
  {
    forall k: nat | k < |cells| && k != j
      ensures cells[k] != cells[j]
    {
      if k < j { CellsInOrder(cells, start, end, k, j); } else { CellsInOrder(cells, start, end, j, k); }
    }
  }

  lemma TakeLive(cells: seq<Cell>, j: nat, n: nat)
    requires j < |cells| && cells[j].free && n <= cells[j].size
    ensures LiveIn(TakeCell(cells, j, n)) == LiveIn(cells) + {TakeCell(cells, j, n)[j]}
    ensures var c := TakeCell(cells, j, n)[j]; c.addr == cells[j].addr && n <= c.size && !c.free
  {
    var t := TakeCell(cells, j, n);
    assert cells == cells[..j] + [cells[j]] + cells[j + 1..];
    if !Splits(cells[j], n) {
      assert t == cells[..j] + [t[j]] + cells[j + 1..];
    }
  }

  lemma GiveLive(cells: seq<Cell>, start: nat, end: nat, j: nat)
    requires Tiles(cells, start, end) && j < |cells| && !cells[j].free
    ensures LiveIn(GiveCell(cells, j)) == LiveIn(cells) - {cells[j]}
  {
    var t := GiveCell(cells, j);
    CellsDistinct(cells, start, end, j);
    assert cells == cells[..j] + [cells[j]] + cells[j + 1..];
    if j + 1 < |cells| && cells[j + 1].free {
      assert cells[j + 1..] == [cells[j + 1]] + cells[j + 2..];
    } else {
      assert t == cells[..j] + [t[j]] + cells[j + 1..];
    }
  }
}

/** Block and arena headers as three words each in the memory of frames: what kmalloc and kfree store, and that
    the stored words spell out the heap's arenas and blocks. */
module HeapMemory {
  import opened Arith
  import opened Pmm
  import opened PageTable
  import opened PhysBytes
  import opened HeapView
  import opened HeapRuns
  import opened Heap

  // ---------------------------------------------------------------- words at addresses

  function WordAt(m: Memory, x: nat): nat {
    Value(Get(m, x / FRAME_SIZE, x % FRAME_SIZE / 8))
  }

  function StoreWord(m: Memory, x: nat, n: nat): (r: Memory)
    ensures |r| == |m|
  {
    Put(m, x / FRAME_SIZE, x % FRAME_SIZE / 8, FromValue(n % U64))
  }

  lemma WordStored(m: Memory, x: nat, n: nat, y: nat)
    requires x % 8 == 0 && y % 8 == 0 && x < |m| * FRAME_SIZE && n < U64
    ensures WordAt(StoreWord(m, x, n), y) == if y == x then n else WordAt(m, y)
  {
    hide Value, FromValue;
    WordPlace(x, y);
    ValueOfFromValue(n);
    assert x / FRAME_SIZE < |m|;
  }

  lemma WordPlace(x: nat, y: nat)
    requires x % 8 == 0 && y % 8 == 0
    ensures x == y <==> x / FRAME_SIZE == y / FRAME_SIZE && x % FRAME_SIZE / 8 == y % FRAME_SIZE / 8
    ensures x % FRAME_SIZE / 8 < 512
  {
    ByteAddress(x, y);
  }

  // ---------------------------------------------------------------- headers

  /** heap_block_t: size, free in the low byte of the second word, next. */
  function ReadBlock(m: Memory, x: nat): BlockHeader {
    BlockHeader(WordAt(m, x), WordAt(m, x + 8) % 256 != 0, WordAt(m, x + 16))
  }

  /** heap_arena_t: next, frame_count, first_block. */
  function ReadArena(m: Memory, x: nat): ArenaHeader {
    ArenaHeader(WordAt(m, x), WordAt(m, x + 8), WordAt(m, x + 16))
  }

  function Store3(m: Memory, x: nat, p: nat, q: nat, r: nat): (n: Memory)
    ensures |n| == |m|
  {
    StoreWord(StoreWord(StoreWord(m, x, p), x + 8, q), x + 16, r)
  }

  /** The bool takes one byte; the bytes behind it stay. */
  function StoreBlock(m: Memory, x: nat, h: BlockHeader): (n: Memory)
    ensures |n| == |m|
  {
    var w := WordAt(m, x + 8);
    Store3(m, x, h.size, w - w % 256 + (if h.free then 1 else 0), h.next)
  }

  function StoreArena(m: Memory, x: nat, h: ArenaHeader): (n: Memory)
    ensures |n| == |m|
  {
    Store3(m, x, h.next, h.frames, h.first)
  }

  /** A place for a header: three words of memory. */
  predicate Place3(m: Memory, x: nat) {
    x % 8 == 0 && x + HDR <= |m| * FRAME_SIZE
  }

  lemma Stored3(m: Memory, x: nat, p: nat, q: nat, r: nat, y: nat)
    requires Place3(m, x) && p < U64 && q < U64 && r < U64 && y % 8 == 0
    ensures WordAt(Store3(m, x, p, q, r), y)
         == if y == x then p else if y == x + 8 then q else if y == x + 16 then r else WordAt(m, y)
  {
    hide WordAt, StoreWord;
    var m1 := StoreWord(m, x, p);
    var m2 := StoreWord(m1, x + 8, q);
    WordStored(m, x, p, y);
    WordStored(m1, x + 8, q, y);
    WordStored(m2, x + 16, r, y);
  }

  /** Reading back a block header, and any header that does not overlap it. */
  lemma BlockStored(m: Memory, x: nat, h: BlockHeader, y: nat)
    requires Place3(m, x) && h.size < U64 && h.next < U64 && y % 8 == 0 && (y == x || y + HDR <= x || x + HDR <= y)
    ensures ReadBlock(StoreBlock(m, x, h), y) == if y == x then h else ReadBlock(m, y)
    ensures y != x ==> ReadArena(StoreBlock(m, x, h), y) == ReadArena(m, y)
  {
    hide WordAt, Store3;
    var w := WordAt(m, x + 8);
    WordRange(m, x + 8);
    var q := w - w % 256 + (if h.free then 1 else 0);
    FlagByte(w, if h.free then 1 else 0);
    Stored3(m, x, h.size, q, h.next, y);
    Stored3(m, x, h.size, q, h.next, y + 8);
    Stored3(m, x, h.size, q, h.next, y + 16);
  }

  lemma WordRange(m: Memory, x: nat)
    ensures WordAt(m, x) < U64
  {
    ValueInRange(Get(m, x / FRAME_SIZE, x % FRAME_SIZE / 8));
  }

  lemma FlagByte(w: nat, b: nat)
    requires w < U64 && b < 256
    ensures (w - w % 256 + b) % 256 == b && w - w % 256 + b < U64
  {
    var q := w / 256;
    assert w - w % 256 == q * 256;
    QuotientUnique(q * 256 + b, 256, q, b);
  }

  lemma ArenaStored(m: Memory, x: nat, h: ArenaHeader, y: nat)
    requires Place3(m, x) && h.next < U64 && h.frames < U64 && h.first < U64
    requires y % 8 == 0 && (y == x || y + HDR <= x || x + HDR <= y)
    ensures ReadArena(StoreArena(m, x, h), y) == if y == x then h else ReadArena(m, y)
    ensures y != x ==> ReadBlock(StoreArena(m, x, h), y) == ReadBlock(m, y)
  {
    hide WordAt, Store3;
    Stored3(m, x, h.next, h.frames, h.first, y);
    Stored3(m, x, h.next, h.frames, h.first, y + 8);
    Stored3(m, x, h.next, h.frames, h.first, y + 16);
  }

  /** Where the fields are: size at 0, the byte free at 8, next at 16; and next at 0, frame_count at 8,
      first_block at 16. */
  lemma HeaderLayout(m: Memory, x: nat, h: BlockHeader, a: ArenaHeader)
    requires Place3(m, x) && h.size < U64 && h.next < U64 && a.next < U64 && a.frames < U64 && a.first < U64
    ensures var n := StoreBlock(m, x, h);
            && WordAt(n, x) == h.size && WordAt(n, x + 16) == h.next
            && WordAt(n, x + 8) % 256 == (if h.free then 1 else 0) && WordAt(n, x + 8) / 256 == WordAt(m, x + 8) / 256
    ensures var n := StoreArena(m, x, a);
            WordAt(n, x) == a.next && WordAt(n, x + 8) == a.frames && WordAt(n, x + 16) == a.first
    ensures HDR == 24 && ARENA_HDR == 24
  {
    hide WordAt, Store3;
    var w := WordAt(m, x + 8);
    WordRange(m, x + 8);
    var bit := if h.free then 1 else 0;
    var q := w - w % 256 + bit;
    FlagByte(w, bit);
    QuotientUnique(w / 256 * 256 + bit, 256, w / 256, bit);
    Stored3(m, x, h.size, q, h.next, x);
    Stored3(m, x, h.size, q, h.next, x + 8);
    Stored3(m, x, h.size, q, h.next, x + 16);
    Stored3(m, x, a.next, a.frames, a.first, x);
    Stored3(m, x, a.next, a.frames, a.first, x + 8);
    Stored3(m, x, a.next, a.frames, a.first, x + 16);
  }

  // ---------------------------------------------------------------- the headers spell out the heap

  ghost predicate SpellsCells(m: Memory, cells: seq<Cell>) {
    forall j: nat :: j < |cells| ==>
      ReadBlock(m, cells[j].addr) == BlockHeader(cells[j].size, cells[j].free, AddrAt(cells, j + 1))
  }

  ghost predicate Spells(m: Memory, v: View) {
    && (forall i: nat :: i < |v| ==> SpellsCells(m, v[i].cells))
    && forall i: nat :: i < |v| ==>
         ReadArena(m, v[i].base) == ArenaHeader(BaseAt(v, i + 1), v[i].frames, AddrAt(v[i].cells, 0))
  }

  lemma Aligned8(v: View, i: nat, j: nat)
    requires ViewOk(v) && i < |v| && j < |v[i].cells|
    ensures v[i].cells[j].addr % 8 == 0 && v[i].base % 8 == 0
    ensures v[i].base + HDR <= v[i].cells[j].addr && v[i].cells[j].End() <= v[i].End()
  {
    hide ViewOk, Tiles;
    ArenaTiles(v, i);
    var a := v[i];
    CellInside(a.cells, a.base + ARENA_HDR, a.End(), j);
    CellAligned(a.cells, a.base + ARENA_HDR, a.End(), j);
    FrameIs8(a.base);
  }

  lemma FrameIs8(x: nat)
    requires x % FRAME_SIZE == 0
    ensures x % 8 == 0
  {
    QuotientUnique(x, 8, x / FRAME_SIZE * 512, 0);
  }

  /** The memory as a map of block headers, for the cells of one arena. */
  ghost function Blocks(m: Memory, cells: seq<Cell>): map<nat, BlockHeader> {
    map j | 0 <= j < |cells| :: cells[j].addr := ReadBlock(m, cells[j].addr)
  }

  lemma BlocksLinked(m: Memory, cells: seq<Cell>)
    requires SpellsCells(m, cells)
    ensures LinkedCells(Blocks(m, cells), cells)
  {
  }

  /** The header at y is clear of cell c, header and payload. */
  predicate Clear(y: nat, c: Cell) {
    y % 8 == 0 && (y + HDR <= c.addr || c.End() <= y)
  }

  lemma OtherClear(v: View, i: nat, j: nat, p: nat, q: nat)
    requires ViewOk(v) && i < |v| && j < |v[i].cells| && p < |v| && q < |v[p].cells| && (p != i || q != j)
    ensures Clear(v[p].cells[q].addr, v[i].cells[j])
  {
    hide ViewOk;
    Disjoint(v, i, j, p, q);
    Aligned8(v, p, q);
  }

  lemma BaseClear(v: View, i: nat, j: nat, p: nat)
    requires ViewOk(v) && i < |v| && j < |v[i].cells| && p < |v|
    ensures Clear(v[p].base, v[i].cells[j])
  {
    hide Tiles;
    Aligned8(v, i, j);
    FirstCell(v, p);
    Aligned8(v, p, 0);
    if p != i {
      ArenasClear(v, i, p);
    }
  }

  lemma FirstCell(v: View, p: nat)
    requires ViewOk(v) && p < |v|
    ensures |v[p].cells| > 0
  {
  }

  lemma ArenasClear(v: View, i: nat, p: nat)
    requires ViewOk(v) && i < |v| && p < |v| && p != i
    ensures v[i].End() <= v[p].base || v[p].End() <= v[i].base
  {
    hide ArenaOk;
  }

  /** All arenas lie in memory. */
  ghost predicate InMemory(m: Memory, v: View) {
    forall i: nat :: i < |v| ==> v[i].End() <= |m| * FRAME_SIZE
  }

  lemma HeapInMemory(h: HeapState, m: Memory)
    requires HeapOk(h, |m|)
    ensures InMemory(m, h.v)
  {
    forall i: nat | i < |h.v|
      ensures h.v[i].End() <= |m| * FRAME_SIZE
    {
      ArenaEnds(h, |m|, i);
    }
  }

  lemma ArenaEnds(h: HeapState, total: nat, i: nat)
    requires HeapOk(h, total) && i < |h.v|
    ensures h.v[i].End() <= total * FRAME_SIZE
  {
    ArenaHasFrames(h.v[i]);
    var a := h.v[i];
    var last := a.base / FRAME_SIZE + a.frames - 1;
    assert last in Span(a.base / FRAME_SIZE, a.frames);
  }

  /** A cell and the places of its headers, in memory and within 64 bits. */
  lemma CellPlace(m: Memory, v: View, i: nat, j: nat)
    requires ViewOk(v) && InMemory(m, v) && i < |v| && j < |v[i].cells|
    ensures var c := v[i].cells[j];
            c.addr % 8 == 0 && c.size % 8 == 0 && c.addr > 0 && c.End() <= |m| * FRAME_SIZE && c.End() < U64 && Place3(m, c.addr)
  {
    Aligned8(v, i, j);
  }

  // ---------------------------------------------------------------- alloc_from_block

  /** The stores of alloc_from_block on the block at b. */
  function TakenMemory(m: Memory, b: nat, n: nat): (r: Memory)
    ensures |r| == |m|
  {
    var h := ReadBlock(m, b);
    if h.size > n + HDR + ALIGN then
      StoreBlock(StoreBlock(m, b + HDR + n, BlockHeader(h.size - n - HDR, true, h.next)), b, BlockHeader(n, false, b + HDR + n))
    else StoreBlock(m, b, h.(free := false))
  }

  /** What it leaves in the block, in the rest, and everywhere clear of them. */
  lemma TakenReads(m: Memory, c: Cell, n: nat, y: nat)
    requires Place3(m, c.addr) && c.End() <= |m| * FRAME_SIZE && c.End() < U64 && n <= c.size && n % 8 == 0
    requires ReadBlock(m, c.addr).size == c.size
    ensures var h := ReadBlock(m, c.addr);
            var t := TakenMemory(m, c.addr, n);
            && ReadBlock(t, c.addr) == (if Splits(c, n) then BlockHeader(n, false, c.addr + HDR + n) else h.(free := false))
            && (Splits(c, n) ==> ReadBlock(t, c.addr + HDR + n) == BlockHeader(c.size - n - HDR, true, h.next))
            && (Clear(y, c) ==> ReadBlock(t, y) == ReadBlock(m, y) && ReadArena(t, y) == ReadArena(m, y))
  {
    hide ReadBlock, ReadArena, StoreBlock;
    var b, h := c.addr, ReadBlock(m, c.addr);
    NextInRange(m, b);
    if Splits(c, n) {
      var rest := b + HDR + n;
      var m1 := StoreBlock(m, rest, BlockHeader(h.size - n - HDR, true, h.next));
      BlockStored(m, rest, BlockHeader(h.size - n - HDR, true, h.next), rest);
      BlockStored(m1, b, BlockHeader(n, false, rest), rest);
      BlockStored(m1, b, BlockHeader(n, false, rest), b);
      if Clear(y, c) {
        BlockStored(m, rest, BlockHeader(h.size - n - HDR, true, h.next), y);
        BlockStored(m1, b, BlockHeader(n, false, rest), y);
      }
    } else {
      BlockStored(m, b, h.(free := false), b);
      if Clear(y, c) {
        BlockStored(m, b, h.(free := false), y);
      }
    }
  }

  lemma NextInRange(m: Memory, x: nat)
    ensures ReadBlock(m, x).next < U64 && ReadBlock(m, x).size < U64
  {
    WordRange(m, x);
    WordRange(m, x + 16);
  }

  /** The cells after taking are at the old addresses, and one more if the cell was split. */
  lemma TakeAddrs(cells: seq<Cell>, j: nat, n: nat, k: nat)
    requires j < |cells| && n <= cells[j].size && k < |TakeCell(cells, j, n)|
    ensures var x := TakeCell(cells, j, n)[k].addr;
            x == cells[j].addr || (Splits(cells[j], n) && x == cells[j].addr + HDR + n)
            || exists q: nat :: q < |cells| && q != j && x == cells[q].addr
  {
    var t := TakeCell(cells, j, n);
    if k < j {
      assert t[k] == cells[k];
    } else if Splits(cells[j], n) && k > j + 1 {
      assert t[k] == cells[k - 1];
    } else if !Splits(cells[j], n) && k > j {
      assert t[k] == cells[k];
    }
  }

  lemma BlocksAt(m: Memory, cells: seq<Cell>, q: nat)
    requires q < |cells|
    ensures cells[q].addr in Blocks(m, cells) && Blocks(m, cells)[cells[q].addr] == ReadBlock(m, cells[q].addr)
  {
    hide ReadBlock;
  }

  /** The headers of alloc_from_block, address by address. */
  lemma TakenAt(blocks: map<nat, BlockHeader>, b: nat, n: nat, x: nat)
    requires b in blocks && n <= blocks[b].size && x in TakenHeaders(blocks, b, n)
    ensures var h := blocks[b];
            var splits := h.size > n + HDR + ALIGN;
            TakenHeaders(blocks, b, n)[x]
            == if x == b then (if splits then BlockHeader(n, false, b + HDR + n) else h.(free := false))
               else if splits && x == b + HDR + n then BlockHeader(h.size - n - HDR, true, h.next)
               else if x in blocks then blocks[x] else TakenHeaders(blocks, b, n)[x]
  {
  }

  lemma TakeSpellsAt(m: Memory, v: View, i: nat, j: nat, n: nat, k: nat)
    requires ViewOk(v) && InMemory(m, v) && Spells(m, v) && i < |v| && j < |v[i].cells|
    requires n <= v[i].cells[j].size && n % 8 == 0 && k < |TakeCell(v[i].cells, j, n)|
    ensures var t := TakeCell(v[i].cells, j, n);
            ReadBlock(TakenMemory(m, v[i].cells[j].addr, n), t[k].addr) == BlockHeader(t[k].size, t[k].free, AddrAt(t, k + 1))
  {
    hide ViewOk, TakenMemory, ReadBlock, ReadArena, TakeCell, LinkedCells, Spells, SpellsCells, InMemory, Blocks, TakenHeaders, Tiles,
      AddrAt;
    var cells, c := v[i].cells, v[i].cells[j];
    CellPlace(m, v, i, j);
    SizeRead(m, v, i, j);
    ArenaLinked(m, v, i);
    BlocksAt(m, cells, j);
    ArenaTiles(v, i);
    LinkTake(Blocks(m, cells), cells, v[i].base + ARENA_HDR, v[i].End(), j, n);
    var t := TakeCell(cells, j, n);
    var x := t[k].addr;
    TakeAddrs(cells, j, n, k);
    LinkedOne(TakenHeaders(Blocks(m, cells), c.addr, n), t, k);
    TakenAt(Blocks(m, cells), c.addr, n, x);
    TakenReads(m, c, n, 0);
    if x != c.addr && !(Splits(c, n) && x == c.addr + HDR + n) {
      var q: nat :| q < |cells| && q != j && x == cells[q].addr;
      OtherClear(v, i, j, i, q);
      BlocksAt(m, cells, q);
      TakenReads(m, c, n, x);
    }
  }

  lemma ArenaLinked(m: Memory, v: View, i: nat)
    requires Spells(m, v) && i < |v|
    ensures LinkedCells(Blocks(m, v[i].cells), v[i].cells)
  {
    BlocksLinked(m, v[i].cells);
  }

  lemma TakeSpellsCells(m: Memory, v: View, i: nat, j: nat, n: nat)
    requires ViewOk(v) && InMemory(m, v) && Spells(m, v) && i < |v| && j < |v[i].cells|
    requires n <= v[i].cells[j].size && n % 8 == 0
    ensures SpellsCells(TakenMemory(m, v[i].cells[j].addr, n), TakeCell(v[i].cells, j, n))
  {
    hide ViewOk, TakenMemory, ReadBlock, TakeCell, Spells, InMemory, AddrAt;
    var t := TakeCell(v[i].cells, j, n);
    forall k: nat | k < |t|
      ensures ReadBlock(TakenMemory(m, v[i].cells[j].addr, n), t[k].addr) == BlockHeader(t[k].size, t[k].free, AddrAt(t, k + 1))
    {
      TakeSpellsAt(m, v, i, j, n, k);
    }
  }

  lemma LinkedOne(blocks: map<nat, BlockHeader>, cells: seq<Cell>, k: nat)
    requires LinkedCells(blocks, cells) && k < |cells|
    ensures cells[k].addr in blocks && blocks[cells[k].addr] == BlockHeader(cells[k].size, cells[k].free, AddrAt(cells, k + 1))
  {
  }

  lemma ArenaTiles(v: View, i: nat)
    requires ViewOk(v) && i < |v|
    ensures Tiles(v[i].cells, v[i].base + ARENA_HDR, v[i].End()) && v[i].base > 0 && v[i].base % FRAME_SIZE == 0
  {
  }

  /** Stores that stay within cell j of arena i, and spell its arena's new cells, spell the new view. */
  lemma SpellsAgain(m: Memory, n: Memory, v: View, i: nat, j: nat, cells: seq<Cell>)
    requires ViewOk(v) && Spells(m, v) && i < |v| && j < |v[i].cells|
    requires forall y :: Clear(y, v[i].cells[j]) ==> ReadBlock(n, y) == ReadBlock(m, y) && ReadArena(n, y) == ReadArena(m, y)
    requires SpellsCells(n, cells) && AddrAt(cells, 0) == AddrAt(v[i].cells, 0)
    ensures Spells(n, v[i := v[i].(cells := cells)])
  {
    hide ViewOk, ReadBlock, ReadArena, Clear, AddrAt;
    var w := v[i := v[i].(cells := cells)];
    forall p: nat | p < |w|
      ensures SpellsCells(n, w[p].cells)
      ensures ReadArena(n, w[p].base) == ArenaHeader(BaseAt(w, p + 1), w[p].frames, AddrAt(w[p].cells, 0))
    {
      BaseClear(v, i, j, p);
      assert BaseAt(w, p + 1) == BaseAt(v, p + 1);
      if p != i {
        forall q: nat | q < |v[p].cells|
          ensures ReadBlock(n, v[p].cells[q].addr) == ReadBlock(m, v[p].cells[q].addr)
        {
          OtherClear(v, i, j, p, q);
        }
      }
    }
  }

  /** alloc_from_block's stores make the memory spell the heap with the block taken. */
  lemma TakeSpells(m: Memory, v: View, i: nat, j: nat, n: nat)
    requires ViewOk(v) && InMemory(m, v) && Spells(m, v) && i < |v| && j < |v[i].cells|
    requires n <= v[i].cells[j].size && n % 8 == 0
    ensures Spells(TakenMemory(m, v[i].cells[j].addr, n), TakeAt(v, i, j, n))
  {
    hide ViewOk, TakenMemory, ReadBlock, ReadArena, TakeCell, Clear;
    var c := v[i].cells[j];
    TakeSpellsCells(m, v, i, j, n);
    CellPlace(m, v, i, j);
    SizeRead(m, v, i, j);
    forall y | Clear(y, c)
      ensures ReadBlock(TakenMemory(m, c.addr, n), y) == ReadBlock(m, y)
      ensures ReadArena(TakenMemory(m, c.addr, n), y) == ReadArena(m, y)
    {
      TakenReads(m, c, n, y);
    }
    TakeFirst(v[i].cells, j, n);
    SpellsAgain(m, TakenMemory(m, c.addr, n), v, i, j, TakeCell(v[i].cells, j, n));
  }

  lemma SizeRead(m: Memory, v: View, i: nat, j: nat)
    requires Spells(m, v) && i < |v| && j < |v[i].cells|
    ensures ReadBlock(m, v[i].cells[j].addr) == BlockHeader(v[i].cells[j].size, v[i].cells[j].free, AddrAt(v[i].cells, j + 1))
  {
    hide ReadBlock, ReadArena;
    assert SpellsCells(m, v[i].cells);
  }

  // ---------------------------------------------------------------- kfree

  /** The header kfree leaves in the block at b, and its store. */
  function GivenHeader(m: Memory, b: nat): BlockHeader {
    var h := ReadBlock(m, b);
    var next := ReadBlock(m, h.next);
    if h.next != 0 && next.free then BlockHeader(h.size + HDR + next.size, true, next.next) else h.(free := true)
  }

  function GivenMemory(m: Memory, b: nat): (r: Memory)
    ensures |r| == |m|
  {
    StoreBlock(m, b, GivenHeader(m, b))
  }

  lemma GiveAddrs(cells: seq<Cell>, j: nat, k: nat)
    requires j < |cells| && k < |GiveCell(cells, j)|
    ensures var x := GiveCell(cells, j)[k].addr;
            x == cells[j].addr || exists q: nat :: q < |cells| && q != j && x == cells[q].addr
  {
    var t := GiveCell(cells, j);
    if k < j {
      assert t[k] == cells[k];
    } else if k > j {
      assert t[k] == cells[k] || t[k] == cells[k + 1];
    }
  }

  /** The header kfree leaves is the one the row of cells calls for, and the others call for no change. */
  lemma GivenExpected(m: Memory, v: View, i: nat, j: nat, k: nat)
    requires ViewOk(v) && InMemory(m, v) && Spells(m, v) && i < |v| && j < |v[i].cells| && k < |GiveCell(v[i].cells, j)|
    ensures var t := GiveCell(v[i].cells, j);
            var b := v[i].cells[j].addr;
            && BlockHeader(t[k].size, t[k].free, AddrAt(t, k + 1)) == (if t[k].addr == b then GivenHeader(m, b) else ReadBlock(m, t[k].addr))
            && AddrAt(t, 0) == AddrAt(v[i].cells, 0)
  {
    hide ViewOk, ReadBlock, ReadArena, Tiles, GiveCell, LinkedCells, Spells, SpellsCells, InMemory, Blocks, AddrAt;
    var cells, b := v[i].cells, v[i].cells[j].addr;
    var blocks := Blocks(m, cells);
    ArenaLinked(m, v, i);
    ArenaTiles(v, i);
    LinkGive(blocks, cells, v[i].base + ARENA_HDR, v[i].End(), j);
    BlocksAt(m, cells, j);
    NextOf(m, v, i, j);
    var t := GiveCell(cells, j);
    LinkedOne(GivenHeaders(blocks, b), t, k);
    GiveAddrs(cells, j, k);
    if t[k].addr != b {
      var q: nat :| q < |cells| && q != j && t[k].addr == cells[q].addr;
      BlocksAt(m, cells, q);
    }
  }

  /** The block's next pointer leads to the right neighbour, if there is one. */
  lemma NextOf(m: Memory, v: View, i: nat, j: nat)
    requires ViewOk(v) && InMemory(m, v) && Spells(m, v) && i < |v| && j < |v[i].cells|
    ensures var h := ReadBlock(m, v[i].cells[j].addr);
            h.next != 0 ==> h.next in Blocks(m, v[i].cells) && Blocks(m, v[i].cells)[h.next] == ReadBlock(m, h.next)
    ensures GivenHeader(m, v[i].cells[j].addr).size < U64 && GivenHeader(m, v[i].cells[j].addr).next < U64
  {
    hide ViewOk, ReadBlock, ReadArena, Tiles, LinkedCells, Spells, SpellsCells, InMemory, Blocks;
    var cells := v[i].cells;
    SizeRead(m, v, i, j);
    CellPlace(m, v, i, j);
    NextInRange(m, cells[j].addr);
    NextInRange(m, ReadBlock(m, cells[j].addr).next);
    if j + 1 < |cells| {
      CellPlace(m, v, i, j + 1);
      SizeRead(m, v, i, j + 1);
      BlocksAt(m, cells, j + 1);
      ArenaTiles(v, i);
      Following(cells, v[i].base + ARENA_HDR, v[i].End(), j);
    }
  }

  /** The header kfree leaves in the block, and everything clear of it. */
  lemma GivenReads(m: Memory, v: View, i: nat, j: nat, y: nat)
    requires ViewOk(v) && InMemory(m, v) && Spells(m, v) && i < |v| && j < |v[i].cells|
    ensures var c := v[i].cells[j];
            && ReadBlock(GivenMemory(m, c.addr), c.addr) == GivenHeader(m, c.addr)
            && (Clear(y, c) ==> ReadBlock(GivenMemory(m, c.addr), y) == ReadBlock(m, y)
                                && ReadArena(GivenMemory(m, c.addr), y) == ReadArena(m, y))
  {
    hide ViewOk, ReadBlock, ReadArena, StoreBlock, Spells, InMemory, Blocks, GivenHeader;
    var c := v[i].cells[j];
    CellPlace(m, v, i, j);
    NextOf(m, v, i, j);
    BlockStored(m, c.addr, GivenHeader(m, c.addr), c.addr);
    if Clear(y, c) {
      BlockStored(m, c.addr, GivenHeader(m, c.addr), y);
    }
  }

  lemma GiveSpellsAt(m: Memory, v: View, i: nat, j: nat, k: nat)
    requires ViewOk(v) && InMemory(m, v) && Spells(m, v) && i < |v| && j < |v[i].cells| && k < |GiveCell(v[i].cells, j)|
    ensures var t := GiveCell(v[i].cells, j);
            ReadBlock(GivenMemory(m, v[i].cells[j].addr), t[k].addr) == BlockHeader(t[k].size, t[k].free, AddrAt(t, k + 1))
  {
    hide ViewOk, GivenMemory, ReadBlock, ReadArena, GiveCell, Spells, InMemory, AddrAt, Clear, GivenHeader;
    var cells, c := v[i].cells, v[i].cells[j];
    var x := GiveCell(cells, j)[k].addr;
    GivenExpected(m, v, i, j, k);
    GivenReads(m, v, i, j, 0);
    GiveAddrs(cells, j, k);
    if x != c.addr {
      var q: nat :| q < |cells| && q != j && x == cells[q].addr;
      OtherClear(v, i, j, i, q);
      GivenReads(m, v, i, j, x);
    }
  }

  lemma GiveFirst(cells: seq<Cell>, j: nat)
    requires j < |cells|
    ensures AddrAt(GiveCell(cells, j), 0) == AddrAt(cells, 0)
  {
  }

  lemma Following(cells: seq<Cell>, start: nat, end: nat, j: nat)
    requires Tiles(cells, start, end) && j + 1 < |cells|
    ensures cells[j].size + HDR + cells[j + 1].size <= cells[j + 1].End()
  {
  }

  /** kfree's stores make the memory spell the heap with the block given back. */
  lemma GiveSpells(m: Memory, h: HeapState, i: nat, j: nat)
    requires ViewOk(h.v) && InMemory(m, h.v) && Spells(m, h.v) && i < |h.v| && j < |h.v[i].cells|
    ensures Spells(GivenMemory(m, h.v[i].cells[j].addr), Kfree(h, i, j).v)
  {
    hide ViewOk, GivenMemory, ReadBlock, ReadArena, GiveCell, Clear, Spells, InMemory, AddrAt, LinkedCells, Blocks, GivenHeaders;
    var v := h.v;
    var cells, c := v[i].cells, v[i].cells[j];
    var n := GivenMemory(m, c.addr);
    forall y
      ensures Clear(y, c) ==> ReadBlock(n, y) == ReadBlock(m, y) && ReadArena(n, y) == ReadArena(m, y)
    {
      GivenReads(m, v, i, j, y);
    }
    var t := GiveCell(cells, j);
    forall k: nat | k < |t|
      ensures ReadBlock(n, t[k].addr) == BlockHeader(t[k].size, t[k].free, AddrAt(t, k + 1))
    {
      GiveSpellsAt(m, v, i, j, k);
    }
    GiveFirst(cells, j);
    SpellsAgain(m, n, v, i, j, t);
  }

  // ---------------------------------------------------------------- grow_heap

  /** The stores of grow_heap for an arena in frames from start on. */
  function NewMemory(m: Memory, v: View, start: nat, n: U64Value): (r: Memory)
    ensures |r| == |m|
  {
    var base := start * FRAME_SIZE;
    StoreArena(StoreBlock(m, base + ARENA_HDR, BlockHeader(GrowSize(n), true, 0)), base,
               ArenaHeader(BaseAt(v, 0), GrowFrames(n), base + ARENA_HDR))
  }

  lemma NewReads(m: Memory, v: View, start: nat, n: U64Value, y: nat)
    requires InMemory(m, [NewArena(start, n)] + v) && BaseAt(v, 0) < U64 && start > 0
    ensures var r := NewMemory(m, v, start, n);
            var base := start * FRAME_SIZE;
            && ReadBlock(r, base + ARENA_HDR) == BlockHeader(GrowSize(n), true, 0)
            && ReadArena(r, base) == ArenaHeader(BaseAt(v, 0), GrowFrames(n), base + ARENA_HDR)
            && (y % 8 == 0 && (y + HDR <= base || base + ARENA_HDR + HDR <= y) ==>
                  ReadBlock(r, y) == ReadBlock(m, y) && ReadArena(r, y) == ReadArena(m, y))
  {
    hide ReadBlock, ReadArena, StoreBlock, StoreArena, GrowFrames;
    var base := start * FRAME_SIZE;
    NewPlaces(m, v, start, n);
    var b := BlockHeader(GrowSize(n), true, 0);
    var a := ArenaHeader(BaseAt(v, 0), GrowFrames(n), base + ARENA_HDR);
    var m1 := StoreBlock(m, base + ARENA_HDR, b);
    BlockStored(m, base + ARENA_HDR, b, base + ARENA_HDR);
    ArenaStored(m1, base, a, base + ARENA_HDR);
    ArenaStored(m1, base, a, base);
    if y % 8 == 0 && (y + HDR <= base || base + ARENA_HDR + HDR <= y) {
      BlockStored(m, base + ARENA_HDR, b, y);
      ArenaStored(m1, base, a, y);
    }
  }

  lemma NewPlaces(m: Memory, v: View, start: nat, n: U64Value)
    requires InMemory(m, [NewArena(start, n)] + v)
    ensures var base := start * FRAME_SIZE;
            && Place3(m, base) && Place3(m, base + ARENA_HDR) && base + GrowFrames(n) * FRAME_SIZE <= |m| * FRAME_SIZE
            && base + ARENA_HDR < U64 && GrowSize(n) < U64 && GrowFrames(n) < U64
  {
    hide GrowFrames;
    assert ([NewArena(start, n)] + v)[0].End() <= |m| * FRAME_SIZE;
    BaseIs8(start);
  }

  /** grow_heap's stores make the memory spell the heap with the new arena in front. */
  lemma NewSpells(m: Memory, v: View, start: nat, n: U64Value)
    requires ViewOk([NewArena(start, n)] + v) && InMemory(m, [NewArena(start, n)] + v) && Spells(m, v) && start > 0
    ensures Spells(NewMemory(m, v, start, n), [NewArena(start, n)] + v)
  {
    hide ViewOk, NewMemory, ReadBlock, ReadArena, GrowFrames, GrowSize, InMemory, SpellsCells, NewArena, AddrAt, Tiles;
    var w := [NewArena(start, n)] + v;
    var r := NewMemory(m, v, start, n);
    ListInRange(m, w, v);
    NewFirst(m, v, start, n);
    forall p: nat | p < |w|
      ensures SpellsCells(r, w[p].cells)
      ensures ReadArena(r, w[p].base) == ArenaHeader(BaseAt(w, p + 1), w[p].frames, AddrAt(w[p].cells, 0))
    {
      if p > 0 {
        assert w[p] == v[p - 1] && BaseAt(w, p + 1) == BaseAt(v, p);
        OldKept(m, v, start, n, p);
      } else {
        assert w[p] == NewArena(start, n) && BaseAt(w, 1) == BaseAt(v, 0);
      }
    }
  }

  lemma NewFirst(m: Memory, v: View, start: nat, n: U64Value)
    requires InMemory(m, [NewArena(start, n)] + v) && BaseAt(v, 0) < U64 && start > 0
    ensures var a := NewArena(start, n);
            && SpellsCells(NewMemory(m, v, start, n), a.cells)
            && ReadArena(NewMemory(m, v, start, n), a.base) == ArenaHeader(BaseAt(v, 0), a.frames, AddrAt(a.cells, 0))
  {
    hide NewMemory, ReadBlock, ReadArena, GrowFrames, GrowSize, InMemory;
    NewReads(m, v, start, n, 0);
  }

  lemma ListInRange(m: Memory, w: View, v: View)
    requires InMemory(m, w) && |w| == |v| + 1 && forall p: nat :: p < |v| ==> w[p + 1] == v[p]
    ensures BaseAt(v, 0) < U64
  {
    if |v| > 0 {
      assert w[1].End() <= |m| * FRAME_SIZE;
    }
  }

  lemma OldKept(m: Memory, v: View, start: nat, n: U64Value, p: nat)
    requires ViewOk([NewArena(start, n)] + v) && InMemory(m, [NewArena(start, n)] + v) && Spells(m, v) && start > 0
    requires 0 < p <= |v| && BaseAt(v, 0) < U64
    ensures SpellsCells(NewMemory(m, v, start, n), v[p - 1].cells)
    ensures ReadArena(NewMemory(m, v, start, n), v[p - 1].base) == ReadArena(m, v[p - 1].base)
  {
    hide ViewOk, NewMemory, ReadBlock, ReadArena, GrowFrames, GrowSize;
    var w := [NewArena(start, n)] + v;
    assert w[0] == NewArena(start, n) && w[p] == v[p - 1];
    ArenasClear(w, 0, p);
    Aligned8(w, 0, 0);
    FirstCell(w, p);
    Aligned8(w, p, 0);
    NewReads(m, v, start, n, w[p].base);
    assert SpellsCells(m, v[p - 1].cells);
    forall q: nat | q < |w[p].cells|
      ensures ReadBlock(NewMemory(m, v, start, n), w[p].cells[q].addr) == ReadBlock(m, w[p].cells[q].addr)
    {
      Aligned8(w, p, q);
      NewReads(m, v, start, n, w[p].cells[q].addr);
    }
  }

  // ---------------------------------------------------------------- where the stores go

  /** The memories differ in words of the headers at the addresses H only; a header is three words. */
  ghost predicate OnlyHeaders(m: Memory, n: Memory, H: set<nat>) {
    |n| == |m| && forall f: nat, i: nat :: f < |m| && i < 512 && Get(n, f, i) != Get(m, f, i) ==>
                    exists x :: x in H && x <= f * FRAME_SIZE + 8 * i < x + HDR
  }

  lemma OnlyTwice(m: Memory, n: Memory, r: Memory, H: set<nat>, G: set<nat>)
    requires OnlyHeaders(m, n, H) && OnlyHeaders(n, r, G)
    ensures OnlyHeaders(m, r, H + G)
  {
    forall f: nat, i: nat | f < |m| && i < 512 && Get(r, f, i) != Get(m, f, i)
      ensures exists x :: x in H + G && x <= f * FRAME_SIZE + 8 * i < x + HDR
    {
      if Get(n, f, i) != Get(m, f, i) {
        var x :| x in H && x <= f * FRAME_SIZE + 8 * i < x + HDR;
        assert x in H + G;
      } else {
        var x :| x in G && x <= f * FRAME_SIZE + 8 * i < x + HDR;
        assert x in H + G;
      }
    }
  }

  lemma WordOnly(m: Memory, x: nat, n: nat, y: nat)
    requires x % 8 == 0 && y <= x < y + HDR
    ensures OnlyHeaders(m, StoreWord(m, x, n), {y})
  {
    hide FromValue;
    assert x == x / FRAME_SIZE * FRAME_SIZE + 8 * (x % FRAME_SIZE / 8);
  }

  lemma Store3Only(m: Memory, x: nat, p: nat, q: nat, r: nat)
    requires x % 8 == 0
    ensures OnlyHeaders(m, Store3(m, x, p, q, r), {x})
  {
    hide OnlyHeaders, StoreWord;
    var m1 := StoreWord(m, x, p);
    var m2 := StoreWord(m1, x + 8, q);
    WordOnly(m, x, p, x);
    WordOnly(m1, x + 8, q, x);
    WordOnly(m2, x + 16, r, x);
    OnlyTwice(m, m1, m2, {x}, {x});
    OnlyTwice(m, m2, StoreWord(m2, x + 16, r), {x} + {x}, {x});
    assert {x} + {x} + {x} == {x};
  }

  lemma TakenOnly(m: Memory, c: Cell, n: nat)
    requires c.addr % 8 == 0 && n % 8 == 0 && ReadBlock(m, c.addr).size == c.size
    ensures OnlyHeaders(m, TakenMemory(m, c.addr, n), CellHeaders(c, n))
  {
    hide OnlyHeaders, Store3, ReadBlock, WordAt;
    var h := ReadBlock(m, c.addr);
    if Splits(c, n) {
      var rest := c.addr + HDR + n;
      var m1 := StoreBlock(m, rest, BlockHeader(h.size - n - HDR, true, h.next));
      BlockOnly(m, rest, BlockHeader(h.size - n - HDR, true, h.next));
      BlockOnly(m1, c.addr, BlockHeader(n, false, rest));
      OnlyTwice(m, m1, StoreBlock(m1, c.addr, BlockHeader(n, false, rest)), {rest}, {c.addr});
      assert {rest} + {c.addr} == CellHeaders(c, n);
    } else {
      BlockOnly(m, c.addr, h.(free := false));
    }
  }

  lemma BlockOnly(m: Memory, x: nat, h: BlockHeader)
    requires x % 8 == 0
    ensures OnlyHeaders(m, StoreBlock(m, x, h), {x})
  {
    hide OnlyHeaders, Store3, WordAt;
    var w := WordAt(m, x + 8);
    Store3Only(m, x, h.size, w - w % 256 + (if h.free then 1 else 0), h.next);
  }

  // ---------------------------------------------------------------- kmalloc

  /** All the stores of kmalloc. */
  function MallocMemory(m: Memory, h: HeapState, size: U64Value): (r: Memory)
    ensures |r| == |m|
  {
    if size == 0 then m
    else
      var n := Aligned(size);
      FirstFitIsFirst(h.v, n, 0);
      match FirstFit(h.v, n, 0)
      case Some((i, j)) => TakenMemory(m, h.v[i].cells[j].addr, n)
      case None =>
        match FirstRun(h.used, |m|, GrowFrames(n), 0)
        case None => m
        case Some(start) => TakenMemory(NewMemory(m, h.v, start, n), start * FRAME_SIZE + ARENA_HDR, n)
  }

  lemma SpellsMeans(h: HeapState, m: Memory)
    requires HeapOk(h, |m|)
    ensures ViewOk(h.v) && InMemory(m, h.v)
  {
    HeapInMemory(h, m);
  }

  /** What kmalloc stores spells the heap it leaves, and goes into headers only. */
  lemma MallocSpells(m: Memory, h: HeapState, size: U64Value)
    requires HeapOk(h, |m|) && !Overrun(h, |m|, size) && Spells(m, h.v)
    ensures Spells(MallocMemory(m, h, size), Kmalloc(h, |m|, size).0.v)
    ensures OnlyHeaders(m, MallocMemory(m, h, size), MallocHeaders(h, |m|, size))
  {
    hide HeapOk, ViewOk, InMemory, Spells, TakenMemory, NewMemory, OnlyHeaders, Aligned, GrowFrames, GrowSize, FirstRun, FirstFit,
      TakeAt, CellHeaders, HeapView.Kmalloc, MallocHeaders, Overrun, Span;
    if size == 0 {
      NoStores(m, h);
      return;
    }
    var n := Aligned(size);
    RequestSizes(size);
    FirstFitIsFirst(h.v, n, 0);
    SpellsMeans(h, m);
    match FirstFit(h.v, n, 0)
    case Some((i, j)) =>
      KmallocFound(h, |m|, size, i, j);
      FoundHeaders(h, |m|, size, i, j);
      TakeSpells(m, h.v, i, j, n);
      FoundOnly(m, h.v, i, j, n);
    case None =>
      var run := FirstRun(h.used, |m|, GrowFrames(n), 0);
      if run.None? {
        KmallocNone(h, |m|, size);
        NoneHeaders(h, |m|, size);
        OnlyNothing(m);
      } else {
        NewArenaSpells(m, h, size, run.value);
      }
  }

  lemma OnlyNothing(m: Memory)
    ensures OnlyHeaders(m, m, {})
  {
  }

  lemma NoStores(m: Memory, h: HeapState)
    requires Spells(m, h.v)
    ensures Spells(m, Kmalloc(h, |m|, 0).0.v) && OnlyHeaders(m, m, MallocHeaders(h, |m|, 0))
  {
    hide Spells;
  }

  lemma FoundHeaders(h: HeapState, total: nat, size: U64Value, i: nat, j: nat)
    requires size > 0 && FirstFit(h.v, Aligned(size), 0) == Some((i, j))
    ensures i < |h.v| && j < |h.v[i].cells| && MallocHeaders(h, total, size) == CellHeaders(h.v[i].cells[j], Aligned(size))
  {
    hide Aligned, CellHeaders, FirstFit;
    FirstFitIsFirst(h.v, Aligned(size), 0);
  }

  lemma NoneHeaders(h: HeapState, total: nat, size: U64Value)
    requires size > 0 && FirstFit(h.v, Aligned(size), 0) == None
    ensures match FirstRun(h.used, total, GrowFrames(Aligned(size)), 0)
            case None => MallocHeaders(h, total, size) == {}
            case Some(start) => MallocHeaders(h, total, size)
                                == {start * FRAME_SIZE} + CellHeaders(NewArena(start, Aligned(size)).cells[0], Aligned(size))
  {
    hide Aligned, CellHeaders, FirstFit, FirstRun, GrowFrames, NewArena;
  }

  lemma FoundOnly(m: Memory, v: View, i: nat, j: nat, n: nat)
    requires ViewOk(v) && InMemory(m, v) && Spells(m, v) && i < |v| && j < |v[i].cells| && n % 8 == 0
    ensures OnlyHeaders(m, TakenMemory(m, v[i].cells[j].addr, n), CellHeaders(v[i].cells[j], n))
  {
    hide ViewOk, InMemory, Spells, TakenMemory, OnlyHeaders, CellHeaders, ReadBlock;
    SizeRead(m, v, i, j);
    CellPlace(m, v, i, j);
    TakenOnly(m, v[i].cells[j], n);
  }

  /** kmalloc into a new arena. */
  lemma NewArenaSpells(m: Memory, h: HeapState, size: U64Value, start: nat)
    requires HeapOk(h, |m|) && !Overrun(h, |m|, size) && Spells(m, h.v) && size > 0
    requires FirstFit(h.v, Aligned(size), 0) == None
    requires FirstRun(h.used, |m|, GrowFrames(Aligned(size)), 0) == Some(start)
    ensures Spells(MallocMemory(m, h, size), Kmalloc(h, |m|, size).0.v)
    ensures OnlyHeaders(m, MallocMemory(m, h, size), MallocHeaders(h, |m|, size))
  {
    hide HeapOk, ViewOk, InMemory, Spells, TakenMemory, NewMemory, OnlyHeaders, Aligned, GrowFrames, GrowSize, FirstRun, FirstFit,
      TakeAt, CellHeaders, HeapView.Kmalloc, MallocHeaders, Overrun, Span, NewArena;
    var n := Aligned(size);
    RequestSizes(size);
    KmallocGrown(h, |m|, size, start);
    NoneHeaders(h, |m|, size);
    GrowBase(h, |m|, n, start);
    var a := NewArena(start, n);
    var g := HeapState([a] + h.v, h.used + Span(start, GrowFrames(n)));
    SpellsMeans(g, m);
    NewSpells(m, h.v, start, n);
    var m1 := NewMemory(m, h.v, start, n);
    SpellsMeans(g, m1);
    assert g.v[0] == a;
    TakeSpells(m1, g.v, 0, 0, n);
    FoundOnly(m1, g.v, 0, 0, n);
    NewOnly(m, h.v, start, n);
    OnlyTwice(m, m1, TakenMemory(m1, a.cells[0].addr, n), {start * FRAME_SIZE, start * FRAME_SIZE + ARENA_HDR},
              CellHeaders(a.cells[0], n));
    FirstInHeaders(a.cells[0], n);
    assert {start * FRAME_SIZE, start * FRAME_SIZE + ARENA_HDR} + CellHeaders(a.cells[0], n)
        == {start * FRAME_SIZE} + CellHeaders(a.cells[0], n);
  }

  lemma FirstInHeaders(c: Cell, n: nat)
    ensures c.addr in CellHeaders(c, n)
  {
  }

  lemma BaseIs8(start: nat)
    ensures start * FRAME_SIZE % 8 == 0 && (start * FRAME_SIZE + ARENA_HDR) % 8 == 0
  {
    QuotientUnique(start * FRAME_SIZE, 8, start * 512, 0);
    QuotientUnique(start * FRAME_SIZE + ARENA_HDR, 8, start * 512 + 3, 0);
  }

  lemma NewOnly(m: Memory, v: View, start: nat, n: U64Value)
    ensures OnlyHeaders(m, NewMemory(m, v, start, n), {start * FRAME_SIZE, start * FRAME_SIZE + ARENA_HDR})
  {
    hide OnlyHeaders, Store3, StoreBlock, GrowFrames, GrowSize;
    var base := start * FRAME_SIZE;
    BaseIs8(start);
    var m1 := StoreBlock(m, base + ARENA_HDR, BlockHeader(GrowSize(n), true, 0));
    BlockOnly(m, base + ARENA_HDR, BlockHeader(GrowSize(n), true, 0));
    Store3Only(m1, base, BaseAt(v, 0), GrowFrames(n), base + ARENA_HDR);
    OnlyTwice(m, m1, NewMemory(m, v, start, n), {base + ARENA_HDR}, {base});
    assert {base + ARENA_HDR} + {base} == {base, base + ARENA_HDR};
  }

  /** kfree's stores go into the block's header only. */
  lemma GivenOnly(m: Memory, b: nat)
    requires b % 8 == 0
    ensures OnlyHeaders(m, GivenMemory(m, b), {b})
  {
    hide OnlyHeaders, StoreBlock, GivenHeader;
    BlockOnly(m, b, GivenHeader(m, b));
  }

  // ---------------------------------------------------------------- stores by others

  /** Word i of frame f belongs to a header of the view. */
  ghost predicate HeaderWordOf(v: View, f: nat, i: nat) {
    var w := f * FRAME_SIZE + 8 * i;
    (exists p: nat :: p < |v| && v[p].base <= w < v[p].base + HDR)
    || exists p: nat, q: nat :: p < |v| && q < |v[p].cells| && v[p].cells[q].addr <= w < v[p].cells[q].addr + HDR
  }

  /** A header of the view is at x. */
  ghost predicate HeaderAt(v: View, x: nat) {
    (exists p: nat :: p < |v| && v[p].base == x)
    || exists p: nat, q: nat :: p < |v| && q < |v[p].cells| && v[p].cells[q].addr == x
  }

  /** Whoever leaves the header words alone leaves the heap spelled out. */
  lemma SpellsKept(m: Memory, n: Memory, v: View)
    requires ViewOk(v) && Spells(m, v) && |n| == |m|
    requires forall f: nat, i: nat :: i < 512 && HeaderWordOf(v, f, i) ==> Get(n, f, i) == Get(m, f, i)
    ensures Spells(n, v)
  {
    hide ViewOk, ReadBlock, ReadArena, HeaderWordOf, HeaderAt, Get;
    forall p: nat | p < |v|
      ensures SpellsCells(n, v[p].cells)
      ensures ReadArena(n, v[p].base) == ReadArena(m, v[p].base)
    {
      FirstCell(v, p);
      Aligned8(v, p, 0);
      BaseAtHeader(v, p);
      SameWords(m, n, v, v[p].base);
      assert SpellsCells(m, v[p].cells);
      forall q: nat | q < |v[p].cells|
        ensures ReadBlock(n, v[p].cells[q].addr) == ReadBlock(m, v[p].cells[q].addr)
      {
        Aligned8(v, p, q);
        CellAtHeader(v, p, q);
        SameWords(m, n, v, v[p].cells[q].addr);
      }
    }
  }

  lemma BaseAtHeader(v: View, p: nat)
    requires p < |v|
    ensures HeaderAt(v, v[p].base)
  {
  }

  lemma CellAtHeader(v: View, p: nat, q: nat)
    requires p < |v| && q < |v[p].cells|
    ensures HeaderAt(v, v[p].cells[q].addr)
  {
  }

  lemma SameWords(m: Memory, n: Memory, v: View, x: nat)
    requires x % 8 == 0 && HeaderAt(v, x)
    requires forall f: nat, i: nat :: i < 512 && HeaderWordOf(v, f, i) ==> Get(n, f, i) == Get(m, f, i)
    ensures ReadBlock(n, x) == ReadBlock(m, x) && ReadArena(n, x) == ReadArena(m, x)
  {
    hide Value, Get, HeaderWordOf, HeaderAt, WordAt;
    SameWord(m, n, v, x, x);
    SameWord(m, n, v, x, x + 8);
    SameWord(m, n, v, x, x + 16);
  }

  lemma SameWord(m: Memory, n: Memory, v: View, x: nat, y: nat)
    requires y % 8 == 0 && HeaderAt(v, x) && x <= y < x + HDR
    requires forall f: nat, i: nat :: i < 512 && HeaderWordOf(v, f, i) ==> Get(n, f, i) == Get(m, f, i)
    ensures WordAt(n, y) == WordAt(m, y)
  {
    hide Value, Get, HeaderWordOf, HeaderAt;
    WordIs(y);
    HeaderHas(v, x, y);
  }

  lemma WordIs(y: nat)
    requires y % 8 == 0
    ensures y == y / FRAME_SIZE * FRAME_SIZE + 8 * (y % FRAME_SIZE / 8) && y % FRAME_SIZE / 8 < 512
  {
  }

  lemma HeaderHas(v: View, x: nat, y: nat)
    requires HeaderAt(v, x) && x <= y < x + HDR && y == y / FRAME_SIZE * FRAME_SIZE + 8 * (y % FRAME_SIZE / 8)
    ensures HeaderWordOf(v, y / FRAME_SIZE, y % FRAME_SIZE / 8)
  {
  }

  /** Word i of frame f lies in the payload of d. */
  predicate InPayload(d: Cell, f: nat, i: nat) {
    d.Payload() <= f * FRAME_SIZE + 8 * i < d.End()
  }

  /** No header has a word in a live payload. */
  lemma PayloadIsNoHeader(v: View, d: Cell, f: nat, i: nat)
    requires ViewOk(v) && d in Live(v) && InPayload(d, f, i)
    ensures !HeaderWordOf(v, f, i)
  {
    hide ViewOk;
    var w := f * FRAME_SIZE + 8 * i;
    var p :| 0 <= p < |v| && d in LiveIn(v[p].cells);
    var q :| 0 <= q < |v[p].cells| && v[p].cells[q] == d;
    forall r: nat | r < |v|
      ensures !(v[r].base <= w < v[r].base + HDR)
    {
      BaseClear(v, p, q, r);
    }
    forall r: nat, t: nat | r < |v| && t < |v[r].cells|
      ensures !(v[r].cells[t].addr <= w < v[r].cells[t].addr + HDR)
    {
      if r != p || t != q {
        OtherClear(v, p, q, r, t);
      }
    }
  }
}

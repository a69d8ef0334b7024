/** Drawing primitives of both framebuffer drivers: clipping, and Bresenham's line with its error bound. */
module Framebuffer {

  const U32: nat := 0x1_0000_0000
  /** Up to this distance along either axis, `2 * err` stays in the 32-bit range. */
  const REACH: int := 0x2AAA_AAAA
  const I32_MAX: int := 0x7FFF_FFFF

  function Abs(x: int): int { if x < 0 then -x else x }
  function Max(x: int, y: int): int { if x < y then y else x }
  /** i steps from one coordinate toward another. */
  function Toward(from: int, to: int, i: int): int { if from < to then from + i else from - i }
  /** The (u32) cast of an i32. */
  function AsU32(x: int): nat { x % U32 }

  // ---------------------------------------------------------------- the error bound

  /** After i x-steps and j y-steps of a line D wide and E high: no more than half a pixel off. Halfway between
      two pixels the further one along the minor axis is taken on lines that are at least as wide as high, and on
      the others. */
  ghost predicate NearLine(D: int, E: int, i: int, j: int) {
    && 0 <= i <= D && 0 <= j <= E
    && (if D >= E then D == 0 || -D <= 2 * (i * E - j * D) < D else -E < 2 * (i * E - j * D) <= E)
  }

  /** So it is within half a pixel, and at each step along the major axis there is one such point only. */
  lemma NearIsOne(D: int, E: int, i: int, j: int, k: int)
    ensures NearLine(D, E, i, j) ==> 2 * Abs(i * E - j * D) <= Max(D, E)
    ensures D >= E && NearLine(D, E, i, j) && NearLine(D, E, i, k) ==> j == k
    ensures E > D && NearLine(D, E, i, j) && NearLine(D, E, k, j) ==> i == k
  {
    if D >= E && NearLine(D, E, i, j) && NearLine(D, E, i, k) && j != k {
      Between(D, j, k);
    }
    if E > D && NearLine(D, E, i, j) && NearLine(D, E, k, j) && i != k {
      Between(E, i, k);
    }
  }

  lemma Between(n: int, j: int, k: int)
    requires n > 0 && j != k
    ensures j * n - k * n >= n || k * n - j * n >= n
  {
    if j < k { Short(n, j, k); } else { Short(n, k, j); }
  }

  /** From (0, 0) to (2, 1) the middle pixel is halfway: it is (1, 1). */
  lemma TieGoesOn(j: int)
    ensures NearLine(2, 1, 1, j) <==> j == 1
  {
  }

  /** err, and the steps the code takes with it. */
  function Err(D: int, E: int, i: int, j: int): int {
    (j + 1) * D - (i + 1) * E
  }

  predicate StepsX(D: int, E: int, i: int, j: int) { 2 * Err(D, E, i, j) >= -E }
  predicate StepsY(D: int, E: int, i: int, j: int) { 2 * Err(D, E, i, j) <= D }

  lemma ErrIs(D: int, E: int, i: int, j: int)
    ensures Err(D, E, i, j) == D - E - (i * E - j * D)
    ensures Err(D, E, i + 1, j) == Err(D, E, i, j) - E && Err(D, E, i, j + 1) == Err(D, E, i, j) + D
    ensures (i + 1) * E - j * D == i * E - j * D + E && i * E - (j + 1) * D == i * E - j * D - D
  {
  }

  predicate InI32(x: int) { -I32_MAX - 1 <= x <= I32_MAX }

  /** No i32 of the loop overflows while it stays within half a pixel of the line. */
  ghost predicate NoOverflow(D: int, E: int) {
    0 <= D <= I32_MAX && 0 <= E <= I32_MAX && forall i: int, j: int :: NearLine(D, E, i, j) ==> InI32(2 * Err(D, E, i, j))
  }

  lemma NoneOverflows(D: int, E: int, i: int, j: int)
    requires NoOverflow(D, E) && NearLine(D, E, i, j)
    ensures InI32(2 * Err(D, E, i, j))
  {
  }

  /** Within half a pixel, 2 * err stays in range for every line up to REACH in either direction. */
  lemma ReachFits(D: int, E: int)
    requires 0 <= D <= REACH && 0 <= E <= REACH
    ensures NoOverflow(D, E)
  {
    forall i: int, j: int | NearLine(D, E, i, j)
      ensures InI32(2 * Err(D, E, i, j))
    {
      ErrIs(D, E, i, j);
    }
  }

  lemma NonNegative(n: int, c: int)
    requires n >= 0 && c >= 0
    ensures n * c >= 0
  {
  }

  lemma Short(n: int, a: int, b: int)
    requires n >= 0 && a < b
    ensures n * b - a * n >= n
  {
    var c := b - a - 1;
    NonNegative(n, c);
    Expand(n, a, c);
  }

  lemma Expand(n: int, a: int, c: int)
    ensures n * (a + c + 1) - a * n == n * c + n
  {
  }

  /** The error bound as a fact about w = i*E - j*D alone, for the linear reasoning below. */
  lemma EndFacts(D: int, E: int, i: int, j: int, w: int)
    requires 0 <= i <= D && 0 <= j <= E && w == i * E - j * D
    ensures i == D && j < E ==> w >= D
    ensures j == E && i < D ==> w <= -E
    ensures i == D && j == E ==> w == 0
  {
    if i == D && j < E { Short(D, j, E); }
    if j == E && i < D { Short(E, i, D); }
  }

  /** The drift w after a turn. */
  lemma Turn(D: int, E: int, i: int, j: int, w: int)
    requires w == i * E - j * D
    ensures Err(D, E, i, j) == D - E - w
    ensures (i + 1) * E - j * D == w + E && i * E - (j + 1) * D == w - D && (i + 1) * E - (j + 1) * D == w + E - D
  {
    ErrIs(D, E, i, j);
  }

  /** A turn of the loop always steps along the major axis, never past either end, and stays within half a
      pixel of the line. */
  lemma StepStaysNear(D: int, E: int, i: int, j: int)
    requires NearLine(D, E, i, j) && !(i == D && j == E)
    ensures D >= E ==> StepsX(D, E, i, j)
    ensures E >= D ==> StepsY(D, E, i, j)
    ensures NearLine(D, E, if StepsX(D, E, i, j) then i + 1 else i, if StepsY(D, E, i, j) then j + 1 else j)
  {
    var w := i * E - j * D;
    Turn(D, E, i, j, w);
    EndFacts(D, E, i, j, w);
    hide Err;
  }

  /** The columns (or rows) fb_fill_rect covers before clipping, with its end in 32 bits; and those asked for. */
  predicate InSpan32(c: nat, x: nat, w: nat) { x <= c < (x + w) % U32 }
  predicate InSpan(c: nat, x: nat, w: nat) { x <= c < x + w }

  /** Pixel (c, r) is set by fb_fill_rect; and is in the rectangle asked for. */
  predicate Filled(c: nat, r: nat, x: nat, y: nat, w: nat, h: nat) { InSpan32(c, x, w) && InSpan32(r, y, h) }
  predicate Asked(c: nat, r: nat, x: nat, y: nat, w: nat, h: nat) { InSpan(c, x, w) && InSpan(r, y, h) }

  /** fb_fill_rect shows exactly the visible part of the rectangle if and only if neither end wraps around in
      32 bits, or nothing of it is visible: it is empty or starts off the screen. */
  lemma FillClipsIff(x: nat, y: nat, w: nat, h: nat, width: nat, height: nat)
    requires x < U32 && y < U32 && w < U32 && h < U32 && width < U32 && height < U32
    ensures (forall c: nat, r: nat :: c < width && r < height ==> (Filled(c, r, x, y, w, h) <==> Asked(c, r, x, y, w, h)))
            <==> (x + w < U32 && y + h < U32) || w == 0 || h == 0 || x >= width || y >= height
  {
    if !((x + w < U32 && y + h < U32) || w == 0 || h == 0 || x >= width || y >= height) {
      assert Asked(x, y, x, y, w, h) && !Filled(x, y, x, y, w, h);
    }
  }

  /** A rectangle from (1, 0) that is meant to cover the rest of a 640x480 screen sets no pixel at all. */
  lemma FillDropsWide(c: nat, r: nat)
    requires c < 640 && r < 480
    ensures !Filled(c, r, 1, 0, U32 - 1, 480) && (c > 0 ==> Asked(c, r, 1, 0, U32 - 1, 480))
  {
  }

  // ---------------------------------------------------------------- pixels

  /** A linear framebuffer of 32-bit pixels; pitch counts pixels per row. */
  class Framebuffer {
    const width: nat
    const height: nat
    const pitch: nat
    const memory: array<bv32>

    ghost predicate Valid()
      reads this
    {
      width <= pitch && width < U32 && height < U32 && height * pitch <= memory.Length
    }

    constructor (width: nat, height: nat, pitch: nat, memory: array<bv32>)
      requires width <= pitch && width < U32 && height < U32 && height * pitch <= memory.Length
      ensures Valid() && this.width == width && this.height == height && this.pitch == pitch && this.memory == memory
    {
      this.width, this.height, this.pitch, this.memory := width, height, pitch, memory;
    }

    /** Every visible pixel has a place of its own in memory. */
    lemma PlaceFits(x: nat, y: nat)
      requires Valid() && x < width && y < height
      ensures y * pitch + x < memory.Length
    {
      NonNegative(pitch, height - 1 - y);
      assert pitch * (height - 1 - y) == height * pitch - y * pitch - pitch;
    }

    lemma PlacesApart(x: nat, y: nat, x': nat, y': nat)
      requires Valid() && x < width && x' < width && y * pitch + x == y' * pitch + x'
      ensures x == x' && y == y'
    {
      if y < y' { Short(pitch, y, y'); } else if y' < y { Short(pitch, y', y); }
    }

    ghost function Pixel(x: nat, y: nat): bv32
      requires Valid() && x < width && y < height
      reads this, memory
    {
      PlaceFits(x, y);
      memory[y * pitch + x]
    }

    /** The store of one visible pixel. */
    method Store(x: nat, y: nat, color: bv32)
      requires Valid() && x < width && y < height
      modifies memory
      ensures forall c: nat, r: nat :: c < width && r < height ==>
                Pixel(c, r) == if c == x && r == y then color else old(Pixel(c, r))
    {
      PlaceFits(x, y);
      memory[y * pitch + x] := color;
      forall c: nat, r: nat | c < width && r < height
        ensures Pixel(c, r) == if c == x && r == y then color else old(Pixel(c, r))
      {
        PlaceFits(c, r);
        if (c != x || r != y) && r * pitch + c == y * pitch + x {
          PlacesApart(c, r, x, y);
        }
      }
    }

    /** fb_put_pixel: sets one visible pixel, or nothing. */
    method PutPixel(x: nat, y: nat, rgb: bv32)
      requires Valid()
      modifies memory
      ensures forall c: nat, r: nat :: c < width && r < height ==>
                Pixel(c, r) == if c == x && r == y then rgb & 0xFF_FFFF else old(Pixel(c, r))
      ensures x >= width || y >= height ==> memory[..] == old(memory[..])
    {
      if x >= width || y >= height {
        return;
      }
      Store(x, y, rgb & 0xFF_FFFF);
    }

    /** fb_fill_rect, with x + w and y + h in 32 bits as in the code; see FillClipsIff for what that means. */
    method FillRect(x: nat, y: nat, w: nat, h: nat, rgb: bv32)
      requires Valid() && x < U32 && y < U32 && w < U32 && h < U32
      modifies memory
      ensures forall c: nat, r: nat :: c < width && r < height ==>
                Pixel(c, r) == if Filled(c, r, x, y, w, h) then rgb & 0xFF_FFFF else old(Pixel(c, r))
    {
      var x1, y1 := (x + w) % U32, (y + h) % U32;
      if x1 > width { x1 := width; }
      if y1 > height { y1 := height; }
      if x >= x1 || y >= y1 {
        return;
      }
      var color := rgb & 0xFF_FFFF;
      var row := y;
      while row < y1
        invariant y <= row <= y1
        invariant forall c: nat, r: nat :: c < width && r < height ==>
          Pixel(c, r) == if x <= c < x1 && y <= r < row then color else old(Pixel(c, r))
      {
        var col := x;
        while col < x1
          invariant x <= col <= x1
          invariant forall c: nat, r: nat :: c < width && r < height ==>
            Pixel(c, r) == if (x <= c < x1 && y <= r < row) || (r == row && x <= c < col) then color else old(Pixel(c, r))
        {
          Store(col, row, color);
          col := col + 1;
        }
        row := row + 1;
      }
    }

    /** fb_draw_line. It plots max(D, E) + 1 pixels, one per step of the major axis, from one end to the
        other, each within half a pixel of the true line; `2 * err` never leaves the 32-bit range. */
    method DrawLine(x0: int, y0: int, x1: int, y1: int, rgb: bv32) returns (ghost plotted: seq<(int, int)>)
      requires Valid()
      requires NoOverflow(Abs(x1 - x0), Abs(y1 - y0))
      modifies memory
      ensures var D, E := Abs(x1 - x0), Abs(y1 - y0);
              && |plotted| == Max(D, E) + 1 && plotted[0] == (x0, y0) && plotted[|plotted| - 1] == (x1, y1)
              && forall k: nat :: k < |plotted| ==> PlottedOk(x0, y0, x1, y1, k, plotted[k])
      ensures forall c: nat, r: nat :: c < width && r < height ==>
                Pixel(c, r) == if Hit(plotted, c, r) then rgb & 0xFF_FFFF else old(Pixel(c, r))
    {
      hide Err, NearLine, PlottedOk, Hit, StepsX, StepsY, NoOverflow;
      var dx := if x1 > x0 then x1 - x0 else x0 - x1;
      var sx := if x0 < x1 then 1 else -1;
      var dy := if y1 > y0 then y0 - y1 else y1 - y0;
      var sy := if y0 < y1 then 1 else -1;
      var err := dx + dy;
      var x, y := x0, y0;
      ghost var D, E, i, j := dx, -dy, 0, 0;
      plotted := [];
      StartsNear(D, E);
      NoneHit();
      while true
        invariant NearLine(D, E, i, j) && 0 <= i <= D && 0 <= j <= E && err == Err(D, E, i, j)
        invariant x == Toward(x0, x1, i) && y == Toward(y0, y1, j)
        invariant |plotted| == (if D >= E then i else j) && (|plotted| == 0 ==> i == 0 && j == 0)
        invariant |plotted| > 0 ==> plotted[0] == (x0, y0)
        invariant forall k: nat :: k < |plotted| ==> PlottedOk(x0, y0, x1, y1, k, plotted[k])
        invariant forall c: nat, r: nat :: c < width && r < height ==>
          Pixel(c, r) == if Hit(plotted, c, r) then rgb & 0xFF_FFFF else old(Pixel(c, r))
        decreases D + E - i - j
      {
        PutPixel(AsU32(x), AsU32(y), rgb);
        PlotOk(x0, y0, x1, y1, i, j);
        HitOneMore(plotted, (x, y));
        plotted := plotted + [(x, y)];
        if x == x1 && y == y1 {
          break;
        }
        NoneOverflows(D, E, i, j);
        assert InI32(2 * err);
        StepStaysNear(D, E, i, j);
        StepErr(D, E, i, j);
        var e2 := 2 * err;
        if e2 >= dy {
          err := err + dy;
          x := x + sx;
          i := i + 1;
        }
        if e2 <= dx {
          err := err + dx;
          y := y + sy;
          j := j + 1;
        }
        NearInside(D, E, i, j);
      }
    }
  }

  /** Some plotted point falls on the visible pixel (c, r). */
  ghost predicate Hit(plotted: seq<(int, int)>, c: nat, r: nat) {
    exists k :: 0 <= k < |plotted| && AsU32(plotted[k].0) == c && AsU32(plotted[k].1) == r
  }

  lemma NoneHit()
    ensures forall c: nat, r: nat :: !Hit([], c, r)
  {
  }

  lemma HitOneMore(plotted: seq<(int, int)>, p: (int, int))
    ensures forall c: nat, r: nat :: Hit(plotted + [p], c, r) <==> Hit(plotted, c, r) || (AsU32(p.0) == c && AsU32(p.1) == r)
  {
    forall c: nat, r: nat
      ensures Hit(plotted + [p], c, r) <==> Hit(plotted, c, r) || (AsU32(p.0) == c && AsU32(p.1) == r)
    {
      var q := plotted + [p];
      assert q[|plotted|] == p;
      if Hit(plotted, c, r) {
        var k :| 0 <= k < |plotted| && AsU32(plotted[k].0) == c && AsU32(plotted[k].1) == r;
        assert q[k] == plotted[k];
      }
    }
  }

  /** The k-th plotted point lies k steps along the major axis, between the ends, within half a pixel. */
  ghost predicate PlottedOk(x0: int, y0: int, x1: int, y1: int, k: nat, p: (int, int)) {
    var D, E, i, j := Abs(x1 - x0), Abs(y1 - y0), Abs(p.0 - x0), Abs(p.1 - y0);
    NearLine(D, E, i, j) && k == (if D >= E then i else j) && p == (Toward(x0, x1, i), Toward(y0, y1, j))
  }

  lemma PlotOk(x0: int, y0: int, x1: int, y1: int, i: int, j: int)
    requires NearLine(Abs(x1 - x0), Abs(y1 - y0), i, j)
    ensures PlottedOk(x0, y0, x1, y1, if Abs(x1 - x0) >= Abs(y1 - y0) then i else j, (Toward(x0, x1, i), Toward(y0, y1, j)))
  {
  }

  lemma StepErr(D: int, E: int, i: int, j: int)
    ensures StepsX(D, E, i, j) == (2 * Err(D, E, i, j) >= -E) && StepsY(D, E, i, j) == (2 * Err(D, E, i, j) <= D)
    ensures Err(D, E, i + 1, j) == Err(D, E, i, j) - E && Err(D, E, i, j + 1) == Err(D, E, i, j) + D
    ensures Err(D, E, i + 1, j + 1) == Err(D, E, i, j) - E + D
  {
    ErrIs(D, E, i, j);
    ErrIs(D, E, i + 1, j);
  }

  lemma StartsNear(D: int, E: int)
    requires D >= 0 && E >= 0
    ensures NearLine(D, E, 0, 0) && Err(D, E, 0, 0) == D - E
  {
  }

  lemma NearInside(D: int, E: int, i: int, j: int)
    requires NearLine(D, E, i, j)
    ensures 0 <= i <= D && 0 <= j <= E
  {
  }
}

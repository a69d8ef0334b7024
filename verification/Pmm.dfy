/** The bitmap frame allocator of mm/pmm.c, refined to a set of used frames. */
module Pmm {

  const FRAME_SIZE: nat := 4096
  const U64: nat := 0x1_0000_0000_0000_0000

  type U64Value = n: nat | n < U64

  datatype Region = Region(base: U64Value, length: U64Value)

  datatype Option<T> = None | Some(value: T)

  // ---------------------------------------------------------------- sets of frames

  /** The frames below `total` that `used` leaves free. */
  function Free(used: set<nat>, total: nat): set<nat> {
    set f: nat | f < total && f !in used
  }

  /** Every frame in [start, start+count) exists and is free. */
  predicate RunFree(used: set<nat>, total: nat, start: nat, count: nat) {
    start + count <= total && forall f: nat :: start <= f < start + count ==> f !in used
  }

  function Span(start: nat, count: nat): (r: set<nat>)
    ensures forall f: nat :: f in r <==> start <= f < start + count
    ensures |r| == count
  {
    if count == 0 then {} else Span(start, count - 1) + {start + count - 1}
  }

  lemma SpanGrows(s: set<nat>, start: nat, i: nat)
    requires start <= i
    ensures s + Span(start, i + 1 - start) == s + Span(start, i - start) + {i}
  {
  }

  /** The lowest start, at or after `from`, of a run of `count` free frames. */
  function FirstRun(used: set<nat>, total: nat, count: nat, from: nat): Option<nat>
    decreases total - from
  {
    if from + count > total || from >= total then None
    else if RunFree(used, total, from, count) then Some(from)
    else FirstRun(used, total, count, from + 1)
  }

  /** FirstRun is what a reader would ask for: a free run with none before it, or none at all. */
  lemma {:induction false} FirstRunIsLowest(used: set<nat>, total: nat, count: nat, from: nat)
    requires count > 0
    ensures match FirstRun(used, total, count, from)
            case None => forall r: nat :: from <= r ==> !RunFree(used, total, r, count)
            case Some(s) => from <= s && RunFree(used, total, s, count) && s + count <= total
                            && forall r: nat :: from <= r < s ==> !RunFree(used, total, r, count)
    decreases total - from
  {
    if from + count <= total && !RunFree(used, total, from, count) {
      FirstRunIsLowest(used, total, count, from + 1);
    }
  }

  /** Conversely, a lowest free run is the one FirstRun returns. */
  lemma {:induction false} LowestIsFirstRun(used: set<nat>, total: nat, count: nat, from: nat, s: nat)
    requires count > 0 && from <= s && RunFree(used, total, s, count)
    requires forall r: nat :: from <= r < s ==> !RunFree(used, total, r, count)
    ensures FirstRun(used, total, count, from) == Some(s)
    decreases s - from
  {
    if from < s {
      LowestIsFirstRun(used, total, count, from + 1, s);
    }
  }

  lemma {:induction false} NoRun(used: set<nat>, total: nat, count: nat, from: nat)
    requires count > 0
    requires forall r: nat :: from <= r ==> !RunFree(used, total, r, count)
    ensures FirstRun(used, total, count, from) == None
    decreases total - from
  {
    if from + count <= total {
      NoRun(used, total, count, from + 1);
    }
  }

  /** What the run search knows at frame f: the last runLen frames are free, and no run starts before them. */
  ghost predicate Scanned(used: set<nat>, total: nat, count: nat, f: nat, runLen: nat) {
    && runLen <= f <= total
    && (forall g: nat :: f - runLen <= g < f ==> g !in used)
    && (forall r: nat :: r < f - runLen ==> !RunFree(used, total, r, count))
  }

  lemma ScanStart(used: set<nat>, total: nat, count: nat)
    ensures Scanned(used, total, count, 0, 0)
  {
  }

  lemma ScanUsed(used: set<nat>, total: nat, count: nat, f: nat, runLen: nat)
    requires Scanned(used, total, count, f, runLen) && runLen < count && f in used && f < total
    ensures Scanned(used, total, count, f + 1, 0)
  {
    forall r: nat | r < f + 1
      ensures !RunFree(used, total, r, count)
    {
      assert r < f - runLen || r <= f < r + count;
    }
  }

  lemma ScanFree(used: set<nat>, total: nat, count: nat, f: nat, runLen: nat)
    requires Scanned(used, total, count, f, runLen) && f !in used && f < total
    ensures Scanned(used, total, count, f + 1, runLen + 1)
  {
  }

  lemma ScanFound(used: set<nat>, total: nat, count: nat, f: nat)
    requires Scanned(used, total, count, f, count) && count > 0
    ensures RunFree(used, total, f - count, count) && FirstRun(used, total, count, 0) == Some(f - count)
    ensures |Free(used + Span(f - count, count), total)| == |Free(used, total)| - count
  {
    LowestIsFirstRun(used, total, count, 0, f - count);
    TakeCount(used, total, Span(f - count, count));
  }

  lemma ScanEnd(used: set<nat>, total: nat, count: nat, runLen: nat)
    requires Scanned(used, total, count, total, runLen) && runLen < count
    ensures FirstRun(used, total, count, 0) == None
  {
    NoRun(used, total, count, 0);
  }

  /** Taking fresh frames lowers the number of free frames by exactly their number. */
  lemma TakeCount(used: set<nat>, total: nat, taken: set<nat>)
    requires taken <= Free(used, total)
    ensures Free(used + taken, total) == Free(used, total) - taken
    ensures |Free(used + taken, total)| == |Free(used, total)| - |taken|
  {
    assert Free(used + taken, total) == Free(used, total) - taken;
  }

  /** Giving back a used frame raises it by one. */
  lemma GiveCount(used: set<nat>, total: nat, f: nat)
    requires f in used && f < total
    ensures |Free(used - {f}, total)| == |Free(used, total)| + 1
  {
    assert Free(used - {f}, total) == Free(used, total) + {f};
  }

  // ---------------------------------------------------------------- ranges and regions

  function AlignDown(a: nat): nat {
    a / FRAME_SIZE * FRAME_SIZE
  }

  /** Frames mark_range touches: its two ends are floored, so a partial last frame is left out. */
  predicate InFlooredRange(f: nat, start: nat, end: nat) {
    start / FRAME_SIZE <= f < end / FRAME_SIZE
  }

  /** The end of a region, in 64-bit arithmetic. */
  function Top(r: Region): U64Value {
    (r.base + r.length) % U64
  }

  function Highest(regions: seq<Region>): U64Value {
    if regions == [] then 0
    else
      var h := Highest(regions[..|regions| - 1]);
      var t := Top(regions[|regions| - 1]);
      if t > h then t else h
  }

  function BitmapAddr(reservedEnd: U64Value): U64Value {
    (reservedEnd + 7) % U64 / 8 * 8
  }

  function BitmapEnd(reservedEnd: U64Value, total: nat): U64Value {
    (BitmapAddr(reservedEnd) + (total + 7) / 8) % U64
  }

  /** Some region's floored range has the frame. */
  predicate InSomeRegion(f: nat, regions: seq<Region>) {
    exists r :: r in regions && InFlooredRange(f, r.base, Top(r))
  }

  lemma NoRegion(regions: seq<Region>)
    ensures Highest(regions[..0]) == 0 && forall f: nat :: !InSomeRegion(f, regions[..0])
  {
  }

  lemma OneMoreRegion(regions: seq<Region>, i: nat)
    requires i < |regions|
    ensures var t, h := Top(regions[i]), Highest(regions[..i]);
            Highest(regions[..i + 1]) == if t > h then t else h
    ensures forall f: nat :: InSomeRegion(f, regions[..i + 1])
              <==> InSomeRegion(f, regions[..i]) || InFlooredRange(f, regions[i].base, Top(regions[i]))
  {
    hide Top, InFlooredRange;
    assert regions[..i + 1][..i] == regions[..i];
    assert regions[..i + 1] == regions[..i] + [regions[i]];
  }

  /** pmm_init's total_frames. */
  function TotalFrames(regions: seq<Region>): nat {
    Highest(regions) / FRAME_SIZE
  }

  /** The frames in use after pmm_init. */
  predicate UsedAtStart(f: nat, regions: seq<Region>, reservedStart: U64Value, reservedEnd: U64Value) {
    var total := TotalFrames(regions);
    f < total && (InFlooredRange(f, reservedStart, BitmapEnd(reservedEnd, total)) || !InSomeRegion(f, regions))
  }

  /** The reserved byte b, of the kernel image or the bitmap behind it, lies in a frame there is. */
  predicate Reserved(b: nat, regions: seq<Region>, reservedStart: U64Value, reservedEnd: U64Value) {
    var total := TotalFrames(regions);
    reservedStart <= b < BitmapEnd(reservedEnd, total) && b / FRAME_SIZE < total
  }

  /** pmm_init's highest address is the largest end of a region. */
  lemma {:induction false} HighestIsMax(regions: seq<Region>)
    ensures forall r :: r in regions ==> Top(r) <= Highest(regions)
    ensures Highest(regions) == 0 || exists r :: r in regions && Top(r) == Highest(regions)
    decreases |regions|
  {
    var n := |regions|;
    if n > 0 {
      HighestIsMax(regions[..n - 1]);
      assert regions == regions[..n - 1] + [regions[n - 1]];
      assert regions[n - 1] in regions;
    }
  }

  /** The bitmap starts at the first multiple of eight behind the reservation and has a bit for every frame, in as
      few bytes as that takes. */
  lemma BitmapFits(reservedEnd: U64Value, total: nat)
    requires reservedEnd + total < 0xFFFF_FFFF_FFFF_FFF0
    ensures var addr, end := BitmapAddr(reservedEnd), BitmapEnd(reservedEnd, total);
            addr % 8 == 0 && reservedEnd <= addr < reservedEnd + 8 && total <= 8 * (end - addr) < total + 8
  {
    assert (reservedEnd + 7) % U64 == reservedEnd + 7;
    var end := BitmapAddr(reservedEnd) + (total + 7) / 8;
    assert end % U64 == end;
  }

  predicate Within(b: nat, start: nat, end: nat) {
    start <= b < end
  }

  /** Where regions start, and the reservation with the bitmap ends, on frame boundaries: a frame is free after
      pmm_init exactly when some region has all of it and no byte of it is reserved. */
  lemma FreeAtStartIff(regions: seq<Region>, reservedStart: U64Value, reservedEnd: U64Value, f: nat)
    requires forall r :: r in regions ==> r.base % FRAME_SIZE == 0 && r.base + r.length < U64
    requires f < TotalFrames(regions) && BitmapEnd(reservedEnd, TotalFrames(regions)) % FRAME_SIZE == 0
    ensures !UsedAtStart(f, regions, reservedStart, reservedEnd)
            <==> (exists r :: r in regions && r.base <= f * FRAME_SIZE && (f + 1) * FRAME_SIZE <= r.base + r.length)
                 && forall b: nat :: Within(b, reservedStart, BitmapEnd(reservedEnd, TotalFrames(regions))) ==> b / FRAME_SIZE != f
  {
    hide BitmapEnd, TotalFrames;
    var end := BitmapEnd(reservedEnd, TotalFrames(regions));
    forall r | r in regions
      ensures InFlooredRange(f, r.base, Top(r)) <==> r.base <= f * FRAME_SIZE && (f + 1) * FRAME_SIZE <= r.base + r.length
    {
      WholeFrame(f, r.base, r.base + r.length);
    }
    ReservedFrame(f, reservedStart, end);
  }

  lemma WholeFrame(f: nat, base: nat, top: nat)
    requires base % FRAME_SIZE == 0
    ensures InFlooredRange(f, base, top) <==> base <= f * FRAME_SIZE && (f + 1) * FRAME_SIZE <= top
  {
  }

  lemma ReservedFrame(f: nat, start: nat, end: nat)
    requires end % FRAME_SIZE == 0
    ensures InFlooredRange(f, start, end) <==> exists b: nat :: Within(b, start, end) && b / FRAME_SIZE == f
  {
    if InFlooredRange(f, start, end) {
      var b := if start > f * FRAME_SIZE then start else f * FRAME_SIZE;
      assert Within(b, start, end) && b / FRAME_SIZE == f;
    }
  }

  /** After pmm_init every reserved byte lies in a used frame exactly when the reservation ends on a frame
      boundary or is empty, or when its last, partial frame is beyond memory or in no region. */
  lemma ReservedUsedIff(regions: seq<Region>, reservedStart: U64Value, reservedEnd: U64Value)
    ensures var end := BitmapEnd(reservedEnd, TotalFrames(regions));
            (forall b: nat :: Reserved(b, regions, reservedStart, reservedEnd) ==>
               UsedAtStart(b / FRAME_SIZE, regions, reservedStart, reservedEnd))
            <==> end % FRAME_SIZE == 0 || reservedStart >= end
                 || end / FRAME_SIZE >= TotalFrames(regions) || !InSomeRegion(end / FRAME_SIZE, regions)
  {
    hide InSomeRegion, BitmapEnd, TotalFrames;
    var end := BitmapEnd(reservedEnd, TotalFrames(regions));
    if reservedStart < end && end % FRAME_SIZE != 0 {
      assert (end - 1) / FRAME_SIZE == end / FRAME_SIZE;
      assert Reserved(end - 1, regions, reservedStart, reservedEnd) <==> end / FRAME_SIZE < TotalFrames(regions);
    }
    forall b: nat | Reserved(b, regions, reservedStart, reservedEnd)
      ensures InFlooredRange(b / FRAME_SIZE, reservedStart, end) || (end % FRAME_SIZE != 0 && b / FRAME_SIZE == end / FRAME_SIZE)
    {
    }
  }

  /** 127MB of memory from 1MB on, with a kernel of 1MB and 16 bytes at its start: the bitmap's last 16 bytes
      lie in frame 0x201, and frame 0x201 is free. */
  lemma BitmapTailIsFree()
    ensures var regions := [Region(0x10_0000, 0x7F0_0000)];
            Reserved(0x20_1000, regions, 0x10_0000, 0x20_0010) && !UsedAtStart(0x201, regions, 0x10_0000, 0x20_0010)
  {
    var r := Region(0x10_0000, 0x7F0_0000);
    var regions := [r];
    assert regions[..0] == [] && Highest([]) == 0;
    assert Highest(regions) == 0x800_0000 && TotalFrames(regions) == 0x8000;
    assert BitmapEnd(0x20_0010, 0x8000) == 0x20_1010;
    assert r in regions && InFlooredRange(0x201, r.base, Top(r));
  }

  /** Every frame a region frees lies inside the region exactly when the region starts on a frame boundary
      (or frees none): rounding the start down can free a frame that begins before it. */
  lemma FreedInsideIff(base: nat, top: nat)
    ensures (forall g: nat :: InFlooredRange(g, base, top) ==> base <= g * FRAME_SIZE && (g + 1) * FRAME_SIZE <= top)
            <==> base % FRAME_SIZE == 0 || base / FRAME_SIZE >= top / FRAME_SIZE
  {
    if base % FRAME_SIZE != 0 && base / FRAME_SIZE < top / FRAME_SIZE {
      assert InFlooredRange(base / FRAME_SIZE, base, top);
    }
  }

  /** Memory that starts in the middle of frame 0x100: that frame is free after pmm_init, though no region has
      its first byte. */
  lemma HalfFrameIsFree()
    ensures var regions := [Region(0x10_0800, 0x7EF_F800)];
            !UsedAtStart(0x100, regions, 0x20_0000, 0x20_1000) && 0x100 < TotalFrames(regions)
            && forall r :: r in regions ==> !(r.base <= 0x100 * FRAME_SIZE < Top(r))
  {
    var r := Region(0x10_0800, 0x7EF_F800);
    var regions := [r];
    assert regions[..0] == [] && Highest([]) == 0;
    assert Highest(regions) == 0x800_0000 && TotalFrames(regions) == 0x8000;
    assert BitmapEnd(0x20_1000, 0x8000) == 0x20_2000;
    assert r in regions && InFlooredRange(0x100, r.base, Top(r));
  }

  // ---------------------------------------------------------------- bits of a byte

  function Mask(k: nat): bv8
    requires k < 8
  {
    1 << k
  }

  function TestByte(b: bv8, k: nat): bool
    requires k < 8
  {
    (b >> k) & 1 == 1
  }

  lemma SetBitInByte(b: bv8, k: nat, j: nat)
    requires k < 8 && j < 8
    ensures TestByte(b | Mask(k), j) == (j == k || TestByte(b, j))
  {
  }

  lemma ClearBitInByte(b: bv8, k: nat, j: nat)
    requires k < 8 && j < 8
    ensures TestByte(b & !Mask(k), j) == (j != k && TestByte(b, j))
  {
  }

  lemma FullByte(k: nat)
    requires k < 8
    ensures TestByte(0xFF, k)
  {
  }

  // ---------------------------------------------------------------- the allocator

  class FrameBitmap {
    var bitmap: array<bv8>
    var total: nat        // total_frames
    var freeFrames: nat   // free_frames

    ghost predicate Valid()
      reads this, bitmap
    {
      && bitmap.Length == (total + 7) / 8
      && freeFrames == |Free(Used(), total)|
    }

    /** The frames below `total` whose bit is set: what the bitmap stands for. */
    ghost function Used(): (s: set<nat>)
      requires bitmap.Length == (total + 7) / 8
      reads `total, `bitmap, bitmap
    {
      set f: nat | f < total && TestByte(bitmap[f / 8], f % 8)
    }

    method BitTest(f: nat) returns (set_: bool)
      requires bitmap.Length == (total + 7) / 8 && f < total
      ensures set_ <==> f in Used()
    {
      set_ := TestByte(bitmap[f / 8], f % 8);
    }

    method BitSet(f: nat)
      requires bitmap.Length == (total + 7) / 8 && f < total
      modifies bitmap
      ensures Used() == old(Used()) + {f}
    {
      hide TestByte;
      bitmap[f / 8] := bitmap[f / 8] | Mask(f % 8);
      forall g: nat | g < total
        ensures g in Used() <==> g == f || g in old(Used())
      {
        if g / 8 == f / 8 {
          SetBitInByte(old(bitmap[f / 8]), f % 8, g % 8);
        }
      }
    }

    method BitClear(f: nat)
      requires bitmap.Length == (total + 7) / 8 && f < total
      modifies bitmap
      ensures Used() == old(Used()) - {f}
    {
      hide TestByte;
      bitmap[f / 8] := bitmap[f / 8] & !Mask(f % 8);
      forall g: nat | g < total
        ensures g in Used() <==> g != f && g in old(Used())
      {
        if g / 8 == f / 8 {
          ClearBitInByte(old(bitmap[f / 8]), f % 8, g % 8);
        }
      }
    }

    /** The pair `bit_set(f); free_frames--`. */
    method Take(f: nat)
      requires Valid() && f < total && f !in Used()
      modifies this`freeFrames, bitmap
      ensures Valid() && Used() == old(Used()) + {f}
    {
      hide TestByte;
      assert f in Free(Used(), total);
      TakeCount(Used(), total, {f});
      BitSet(f);
      freeFrames := freeFrames - 1;
    }

    /** The pair `bit_clear(f); free_frames++`. */
    method Give(f: nat)
      requires Valid() && f in Used()
      modifies this`freeFrames, bitmap
      ensures Valid() && Used() == old(Used()) - {f}
    {
      hide TestByte;
      GiveCount(Used(), total, f);
      BitClear(f);
      freeFrames := freeFrames + 1;
    }

    method AllocFrame() returns (addr: nat)
      requires Valid()
      modifies this`freeFrames, bitmap
      ensures Valid()
      ensures match FirstRun(old(Used()), total, 1, 0)
              case None => addr == 0 && Used() == old(Used())
              case Some(f) => addr == f * FRAME_SIZE && Used() == old(Used()) + {f}
    {
      hide TestByte;
      var f := 0;
      while f < total
        invariant 0 <= f <= total && Valid() && Used() == old(Used())
        invariant forall g: nat :: g < f ==> g in Used()
      {
        var b := BitTest(f);
        if !b {
          forall r: nat | r < f
            ensures !RunFree(Used(), total, r, 1)
          {
            assert r in Used();
          }
          LowestIsFirstRun(Used(), total, 1, 0, f);
          Take(f);
          return f * FRAME_SIZE;
        }
        f := f + 1;
      }
      assert forall r: nat :: RunFree(Used(), total, r, 1) ==> r < total && r !in Used();
      NoRun(Used(), total, 1, 0);
      return 0;
    }

    method FreeFrame(addr: nat)
      requires Valid()
      modifies this`freeFrames, bitmap
      ensures Valid()
      ensures Used() == old(Used()) - {addr / FRAME_SIZE}
    {
      hide TestByte;
      var f := addr / FRAME_SIZE;
      if f >= total {
        return;
      }
      var b := BitTest(f);
      if !b {
        return;
      }
      Give(f);
    }

    /** The loop at the end of pmm_alloc_frames that sets every bit of the run found. */
    method SetRun(start: nat, count: nat)
      requires bitmap.Length == (total + 7) / 8 && start + count <= total
      modifies bitmap
      ensures Used() == old(Used()) + Span(start, count)
    {
      hide TestByte, Used;
      var i := start;
      while i < start + count
        invariant start <= i <= start + count <= total
        invariant Used() == old(Used()) + Span(start, i - start)
      {
        SpanGrows(old(Used()), start, i);
        BitSet(i);
        i := i + 1;
      }
    }

    method CommitRun(start: nat, count: nat)
      requires Valid() && count > 0 && Scanned(Used(), total, count, start + count, count)
      modifies this`freeFrames, bitmap
      ensures Valid()
      ensures FirstRun(old(Used()), total, count, 0) == Some(start)
      ensures Used() == old(Used()) + Span(start, count)
    {
      hide Scanned, RunFree, FirstRun, Span, TestByte, Free, Used;
      ScanFound(Used(), total, count, start + count);
      ghost var after := Used() + Span(start, count);
      assert start + count - count == start;
      SetRun(start, count);
      freeFrames := freeFrames - count;
      assert Used() == after;
    }

    method AllocFrames(count: nat) returns (addr: nat)
      requires Valid()
      modifies this`freeFrames, bitmap
      ensures Valid()
      ensures count == 0 ==> addr == 0 && Used() == old(Used())
      ensures count > 0 ==>
        match FirstRun(old(Used()), total, count, 0)
        case None => addr == 0 && Used() == old(Used())
        case Some(start) => addr == start * FRAME_SIZE && Used() == old(Used()) + Span(start, count)
    {
      if count == 0 {
        return 0;
      }
      ScanStart(Used(), total, count);
      hide TestByte, Used, Free, Scanned, RunFree;
      var runStart, runLen, f := 0, 0, 0;
      while f < total
        invariant 0 <= f <= total && runLen < count && runLen <= f
        invariant Valid() && Used() == old(Used())
        invariant runLen > 0 ==> runStart == f - runLen
        invariant Scanned(Used(), total, count, f, runLen)
      {
        var b := BitTest(f);
        if b {
          ScanUsed(Used(), total, count, f, runLen);
          runLen := 0;
        } else {
          if runLen == 0 {
            runStart := f;
          }
          ScanFree(Used(), total, count, f, runLen);
          runLen := runLen + 1;
          if runLen == count {
            CommitRun(runStart, count);
            return runStart * FRAME_SIZE;
          }
        }
        f := f + 1;
      }
      ScanEnd(Used(), total, count, runLen);
      return 0;
    }

    method FreeFrames(addr: nat, count: U64Value)
      requires Valid()
      modifies this`freeFrames, bitmap
      ensures Valid()
      ensures forall g: nat :: g in Used() <==>
        g in old(Used()) && !(addr / FRAME_SIZE <= g < (addr / FRAME_SIZE + count) % U64)
    {
      hide TestByte;
      var first := addr / FRAME_SIZE;
      var f := first;
      while f < (first + count) % U64 && f < total
        invariant first <= f && Valid()
        invariant forall g: nat :: g in Used() <==> g in old(Used()) && !(first <= g < f)
        invariant f == first || f <= (first + count) % U64
      {
        var b := BitTest(f);
        if b {
          Give(f);
        }
        f := f + 1;
      }
    }

    /** mark_range: both ends are rounded down to a frame. */
    method MarkRange(start: nat, end: nat, asUsed: bool)
      requires Valid()
      modifies this`freeFrames, bitmap
      ensures Valid()
      ensures forall g: nat :: g in Used() <==>
        g < total && if InFlooredRange(g, start, end) then asUsed else g in old(Used())
    {
      hide TestByte;
      var first := start / FRAME_SIZE;
      var last := AlignDown(end) / FRAME_SIZE;
      var f := first;
      while f < last && f < total
        invariant first <= f && Valid() && (f == first || f <= last)
        invariant forall g: nat :: g in Used() <==>
          g < total && if first <= g < f then asUsed else g in old(Used())
      {
        var b := BitTest(f);
        if asUsed {
          if !b {
            Take(f);
          }
        } else {
          if b {
            Give(f);
          }
        }
        f := f + 1;
      }
    }

    /** pmm_init. The bitmap sits at `BitmapAddr(reservedEnd)`, right after the reservation, and extends it. */
    constructor Init(regions: seq<Region>, reservedStart: U64Value, reservedEnd: U64Value)
      ensures Valid() && fresh(bitmap)
      ensures total == TotalFrames(regions)
      ensures forall g: nat :: g in Used() <==> UsedAtStart(g, regions, reservedStart, reservedEnd)
    {
      hide TestByte, Top, Highest, InSomeRegion, BitmapEnd, InFlooredRange;
      var highest := 0;
      var i := 0;
      NoRegion(regions);
      while i < |regions|
        invariant 0 <= i <= |regions|
        invariant highest == Highest(regions[..i])
      {
        OneMoreRegion(regions, i);
        if Top(regions[i]) > highest {
          highest := Top(regions[i]);
        }
        i := i + 1;
      }
      assert regions[..i] == regions;
      var bytes := (highest / FRAME_SIZE + 7) / 8;
      total := highest / FRAME_SIZE;
      var bits := new bv8[bytes];
      i := 0;
      while i < bytes
        invariant 0 <= i <= bytes && fresh(bits)
        invariant forall k :: 0 <= k < i ==> bits[k] == 0xFF
      {
        bits[i] := 0xFF;
        i := i + 1;
      }
      bitmap := bits;
      freeFrames := 0;
      new;
      forall g: nat | g < total
        ensures g in Used()
      {
        FullByte(g % 8);
      }
      assert Free(Used(), total) == {};
      i := 0;
      while i < |regions|
        invariant 0 <= i <= |regions| && Valid() && fresh(bitmap)
        invariant total == Highest(regions) / FRAME_SIZE
        invariant forall g: nat :: g in Used() <==> g < total && !InSomeRegion(g, regions[..i])
      {
        MarkRange(regions[i].base, Top(regions[i]), false);
        OneMoreRegion(regions, i);
        i := i + 1;
      }
      assert regions[..i] == regions;
      MarkRange(reservedStart, BitmapEnd(reservedEnd, total), true);
    }
  }
}

/** What a launched process finds in its address space, in terms of the records of its ELF file. */
module ProcessImage {
  import opened Pmm
  import opened PageTable
  import opened PageTree
  import opened PageOps
  import opened PageRuns
  import opened PhysBytes
  import opened Loader
  import opened LoaderImage
  import opened LoaderRuns
  import opened Elf
  import opened Process

  // ---------------------------------------------------------------- pages, in numbers

  /** Page number n is one of those the memory of record p touches. */
  predicate Touches(p: Phdr, n: nat) {
    p.vaddr / 4096 <= n < (p.vaddr + p.memsz + 4095) / 4096
  }

  /** The pages process_run maps for a segment are exactly those its memory touches. */
  lemma CoversIs(a: Arch, seg: Segment, p: Phdr, u: U64Value)
    requires RangeOk(a, seg) && SegmentIs(seg, p)
    ensures Covers(seg, u) <==> Touches(p, u / 4096)
  {
    var x := seg.vaddr + seg.memsz;
    assert x % U64 == x && (x + PAGE - 1) % U64 == x + PAGE - 1;
    RoundDown(seg.vaddr, u);
    RoundDown(x + PAGE - 1, u);
  }

  lemma RoundDown(x: nat, u: nat)
    ensures x / PAGE * PAGE <= u <==> x / PAGE <= u / PAGE
  {
    var q := x / PAGE;
    assert u == u / PAGE * PAGE + u % PAGE;
  }

  /** No page belongs to two of the records. */
  ghost predicate RecordsApart(ps: seq<Phdr>) {
    forall i: nat, j: nat, n: nat :: i < |ps| && j < |ps| && Touches(ps[i], n) && Touches(ps[j], n) ==> i == j
  }

  lemma ApartIsDisjoint(a: Arch, segs: seq<Segment>, ps: seq<Phdr>)
    requires SegmentsAre(segs, ps) && RecordsApart(ps) && forall seg :: seg in segs ==> SegmentOk(a, seg)
    ensures PagesDisjoint(segs)
  {
    hide Covers, Touches, SegmentOk;
    forall i: nat, j: nat, u | i < |segs| && j < |segs| && Covers(segs[i], u) && Covers(segs[j], u)
      ensures i == j
    {
      SegmentBounds(a, segs[i]);
      SegmentBounds(a, segs[j]);
      CoversIs(a, segs[i], ps[i], u);
      CoversIs(a, segs[j], ps[j], u);
    }
  }

  // ---------------------------------------------------------------- bytes

  /** What record p puts at u: its byte of the file, and zero past its file size. */
  function RecordByte(file: seq<Byte>, p: Phdr, u: nat): Byte
    requires p.vaddr <= u
  {
    var k := p.offset + (u - p.vaddr);
    if u < p.vaddr + p.filesz && k < |file| then file[k] else 0
  }

  lemma ImageByteIs(seg: Segment, p: Phdr, file: seq<Byte>, u: U64Value)
    requires SegmentIs(seg, p) && p.vaddr <= u
    ensures ImageByte(seg, file, u) == RecordByte(file, p, u)
  {
  }

  /** User code may read the page of u; and write it exactly if w says so: by the U and W bits on x86_64, by AP[1]
      and AP[2] on AArch64. */
  ghost predicate UserPage(a: Arch, s: Phys, root: nat, u: U64Value, w: bool) {
    var h := Look(a, s.mem, root, u);
    h.Leaf? && h.level == 1
    && match a
       case X86 => Bit2(h.word) && (Bit1(h.word) <==> w)
       case A64 => h.word.low / 0x40 % 2 == 1 && (h.word.low / 0x80 % 2 == 0 <==> w)
  }

  /** The address space of a launched process: for every PT_LOAD record of the file, if no page belongs to two of
      them, every address of its memory reads the record's byte, through the process's own translation, and is
      writable exactly if the record has PF_W. */
  lemma LaunchedImage(a: Arch, y: Sys, id: nat, file: seq<Byte>, h: Ehdr, phs: seq<Phdr>, j: nat, u: U64Value)
    requires ElfFile(file, h, phs) && LaunchReady(a, y, id, SegmentsFrom(file, 0)) && RecordsApart(Loads(phs))
    requires j < |Loads(phs)| && Loads(phs)[j].vaddr <= u < Loads(phs)[j].vaddr + Loads(phs)[j].memsz
    ensures var z := Launched(a, y, id, SegmentsFrom(file, 0), file);
            var p := Loads(phs)[j];
            && id in z.roots && Read(a, z.s, z.roots[id], u) == RecordByte(file, p, u)
            && UserPage(a, z.s, z.roots[id], u, p.pflags / 2 % 2 == 1)
  {
    hide Inv, Look, Launched, LaunchReady, ElfFile, SegmentsFrom, Loads, Read, ImageByte, RecordByte, Loading, OthersKept, PagesApart,
      StackMapped, StackApart, Exec, PageOf, AllPages, Agree, PageTotal, Covers, Covered, SegmentOk, RecordsApart, Touches, Backed,
      Granted;
    var segs, ps := SegmentsFrom(file, 0), Loads(phs);
    SegmentsAreLoads(file, h, phs);
    ReadySegments(a, y, id, segs);
    LaunchFacts(a, y, id, segs, file);
    ApartIsDisjoint(a, segs, ps);
    var z := Launched(a, y, id, segs, file);
    assert segs[j] in segs && SegmentIs(segs[j], ps[j]);
    MemoryIsCovered(a, segs, j, u);
    LastIsAmong(segs, u);
    assert LastOver(segs, u) == segs[j];
    assert Holds(a, y.s, z.s, z.roots[id], file, u, segs[j]);
    ImageByteIs(segs[j], ps[j], file, u);
    ImageRights(a, y.s, z.s, z.roots[id], segs, file, u);
  }

  lemma ReadySegments(a: Arch, y: Sys, id: nat, segs: seq<Segment>)
    requires LaunchReady(a, y, id, segs)
    ensures forall seg :: seg in segs ==> SegmentOk(a, seg)
  {
    hide Inv, SegmentOk, Covered, InStack, Stops, Look;
  }

  /** The stack of a launched process: sixteen kilobytes below the top, writable for user code. */
  lemma LaunchedStack(a: Arch, y: Sys, id: nat, segs: seq<Segment>, file: seq<Byte>, u: U64Value)
    requires LaunchReady(a, y, id, segs)
    requires match a case X86 => 0x7FFF_FFFF_B000 <= u < 0x7FFF_FFFF_F000 case A64 => 0xEFFF_C000 <= u < 0xF000_0000
    ensures var z := Launched(a, y, id, segs, file);
            id in z.roots && UserPage(a, z.s, z.roots[id], u, true)
  {
    hide Inv, Look, Launched, LaunchReady, Loading, OthersKept, PagesApart, ImageLoaded, ImageCorrect, NothingLost, StackApart, Exec,
      PageOf, AllPages, Agree, PageTotal, AllBacked;
    LaunchFacts(a, y, id, segs, file);
    var z := Launched(a, y, id, segs, file);
    assert Granted(a, z.s, z.roots[id], u, 7);
    LeafEntryFacts(a, FrameAt(a, z.s, z.roots[id], u) * PAGE, 7);
  }
}

/** ELF64 files: the headers as process_run of both architectures reads them, against the records of the ELF gABI. */
module Elf {
  import opened Arith
  import opened Pmm
  import opened PageTable
  import opened PhysBytes
  import opened Loader

  // ---------------------------------------------------------------- what the loader reads

  const HEADER_SIZE: nat := 64
  const PROGRAM_HEADER_SIZE: nat := 56
  const PT_LOAD: nat := 1

  /** The little-endian number in n bytes of the file. */
  function Little(file: seq<Byte>, at: nat, n: nat): nat
    decreases n
  {
    if n == 0 then 0 else ByteAt(file, at) + 256 * Little(file, at + 1, n - 1)
  }

  lemma {:induction false} LittleBytes(file: seq<Byte>, at: nat, n: nat, k: nat)
    requires k < n
    ensures Little(file, at, n) < Place(n) && GetByte(Little(file, at, n), k) == ByteAt(file, at + k)
    decreases n
  {
    var rest := Little(file, at + 1, n - 1);
    QuotientUnique(Little(file, at, n), 256, rest, ByteAt(file, at));
    if n > 1 {
      LittleBytes(file, at + 1, n - 1, if k > 0 then k - 1 else 0);
    }
    if k > 0 {
      QuotientOfQuotient(Little(file, at, n), 256, Place(k - 1));
    }
  }

  function U64At(file: seq<Byte>, at: nat): U64Value {
    LittleBytes(file, at, 8, 0);
    EightBytes();
    Little(file, at, 8)
  }

  function ElfMachine(a: Arch): nat {
    if a == X86 then 62 else 183
  }

  predicate ElfValid(a: Arch, file: seq<Byte>) {
    && |file| >= HEADER_SIZE
    && file[0] == 0x7F && file[1] == 0x45 && file[2] == 0x4C && file[3] == 0x46
    && file[4] == 2
    && Little(file, 18, 2) == ElfMachine(a)
  }

  function HeaderAt(file: seq<Byte>, i: nat): nat {
    U64At(file, 32) + PROGRAM_HEADER_SIZE * i
  }

  predicate IsLoad(file: seq<Byte>, i: nat) {
    Little(file, HeaderAt(file, i), 4) == PT_LOAD
  }

  function SegmentAt(file: seq<Byte>, i: nat): Segment {
    var at := HeaderAt(file, i);
    Segment(U64At(file, at + 16), U64At(file, at + 8), U64At(file, at + 32), U64At(file, at + 40),
            Little(file, at + 4, 4) / 2 % 2 == 1)
  }

  function HeaderCount(file: seq<Byte>): nat {
    Little(file, 56, 2)
  }

  function SegmentsFrom(file: seq<Byte>, i: nat): seq<Segment>
    decreases HeaderCount(file) - i
  {
    if i >= HeaderCount(file) then []
    else (if IsLoad(file, i) then [SegmentAt(file, i)] else []) + SegmentsFrom(file, i + 1)
  }

  lemma SegmentsStep(file: seq<Byte>, i: nat)
    requires i < HeaderCount(file)
    ensures SegmentsFrom(file, i) == if IsLoad(file, i) then [SegmentAt(file, i)] + SegmentsFrom(file, i + 1)
                                     else SegmentsFrom(file, i + 1)
  {
    hide HeaderCount, IsLoad, SegmentAt;
  }

  // ---------------------------------------------------------------- the records, as C lays them out

  /** Elf64_Ehdr; ident are its 16 bytes. */
  datatype Ehdr = Ehdr(ident: seq<Byte>, etype: nat, machine: nat, version: nat, entry: nat, phoff: nat, shoff: nat, flags: nat,
                       ehsize: nat, phentsize: nat, phnum: nat, shentsize: nat, shnum: nat, shstrndx: nat)

  /** Elf64_Phdr */
  datatype Phdr = Phdr(ptype: nat, pflags: nat, offset: nat, vaddr: nat, paddr: nat, filesz: nat, memsz: nat, align: nat)

  /** The k bytes of n, least significant first. */
  function Le(n: nat, k: nat): (b: seq<Byte>)
    ensures |b| == k
    decreases k
  {
    if k == 0 then [] else [n % 256] + Le(n / 256, k - 1)
  }

  function EhdrBytes(h: Ehdr): seq<Byte> {
    h.ident + (Le(h.etype, 2) + (Le(h.machine, 2) + (Le(h.version, 4) + (Le(h.entry, 8) + (Le(h.phoff, 8) + (Le(h.shoff, 8)
      + (Le(h.flags, 4) + (Le(h.ehsize, 2) + (Le(h.phentsize, 2) + (Le(h.phnum, 2) + (Le(h.shentsize, 2)
      + (Le(h.shnum, 2) + Le(h.shstrndx, 2)))))))))))))
  }

  function PhdrBytes(p: Phdr): seq<Byte> {
    Le(p.ptype, 4) + (Le(p.pflags, 4) + (Le(p.offset, 8) + (Le(p.vaddr, 8) + (Le(p.paddr, 8) + (Le(p.filesz, 8)
      + (Le(p.memsz, 8) + Le(p.align, 8)))))))
  }

  /** The fields fit their types. */
  predicate EhdrOk(h: Ehdr) {
    |h.ident| == 16 && h.machine < 0x1_0000 && h.phoff < 0x1_0000_0000_0000_0000 && h.phnum < 0x1_0000
  }

  predicate PhdrOk(p: Phdr) {
    && p.ptype < 0x1_0000_0000 && p.pflags < 0x1_0000_0000
    && p.offset < 0x1_0000_0000_0000_0000 && p.vaddr < 0x1_0000_0000_0000_0000
    && p.filesz < 0x1_0000_0000_0000_0000 && p.memsz < 0x1_0000_0000_0000_0000
  }

  /** The file has these bytes at this place. */
  ghost predicate HasBytes(file: seq<Byte>, at: nat, b: seq<Byte>) {
    at + |b| <= |file| && file[at..at + |b|] == b
  }

  /** A file with header h, and the program headers phs where h says they are. */
  ghost predicate ElfFile(file: seq<Byte>, h: Ehdr, phs: seq<Phdr>) {
    && EhdrOk(h) && HasBytes(file, 0, EhdrBytes(h)) && |phs| == h.phnum
    && forall i: nat :: i < |phs| ==> PhdrOk(phs[i]) && HasBytes(file, h.phoff + 56 * i, PhdrBytes(phs[i]))
  }

  // ---------------------------------------------------------------- reading fields

  lemma BytesSplit(file: seq<Byte>, at: nat, a: seq<Byte>, b: seq<Byte>)
    requires HasBytes(file, at, a + b)
    ensures HasBytes(file, at, a) && HasBytes(file, at + |a|, b)
  {
    var ab := file[at..at + |a + b|];
    assert file[at..at + |a|] == ab[..|a|];
    assert file[at + |a|..at + |a| + |b|] == ab[|a|..];
  }

  /** A field is read as the number it was written from. */
  lemma {:induction false} FieldRead(file: seq<Byte>, at: nat, n: nat, k: nat)
    requires HasBytes(file, at, Le(n, k)) && n < Place(k)
    ensures Little(file, at, k) == n
    decreases k
  {
    if k > 0 {
      var rest := Le(n / 256, k - 1);
      BytesSplit(file, at, [n % 256], rest);
      assert file[at..at + 1][0] == file[at];
      FieldRead(file, at + 1, n / 256, k - 1);
    }
  }

  lemma Sizes()
    ensures Place(2) == 0x1_0000 && Place(4) == 0x1_0000_0000 && Place(8) == 0x1_0000_0000_0000_0000
  {
    EightBytes();
    assert Place(3) == 0x100_0000;
  }

  /** The fields of the ELF header process_run looks at. */
  lemma EhdrRead(file: seq<Byte>, h: Ehdr)
    requires EhdrOk(h) && HasBytes(file, 0, EhdrBytes(h))
    ensures |file| >= 64 && file[..16] == h.ident
    ensures Little(file, 18, 2) == h.machine && U64At(file, 32) == h.phoff && Little(file, 56, 2) == h.phnum
  {
    hide HasBytes, Little, Le;
    Sizes();
    var r13 := Le(h.shnum, 2) + Le(h.shstrndx, 2);
    var r12 := Le(h.shentsize, 2) + r13;
    var r11 := Le(h.phnum, 2) + r12;
    var r10 := Le(h.phentsize, 2) + r11;
    var r9 := Le(h.ehsize, 2) + r10;
    var r8 := Le(h.flags, 4) + r9;
    var r7 := Le(h.shoff, 8) + r8;
    var r6 := Le(h.phoff, 8) + r7;
    var r5 := Le(h.entry, 8) + r6;
    var r4 := Le(h.version, 4) + r5;
    var r3 := Le(h.machine, 2) + r4;
    var r2 := Le(h.etype, 2) + r3;
    BytesFit(file, 0, h.ident + r2);
    BytesSplit(file, 0, h.ident, r2);
    BytesSplit(file, 16, Le(h.etype, 2), r3);
    BytesSplit(file, 18, Le(h.machine, 2), r4);
    BytesSplit(file, 20, Le(h.version, 4), r5);
    BytesSplit(file, 24, Le(h.entry, 8), r6);
    BytesSplit(file, 32, Le(h.phoff, 8), r7);
    BytesSplit(file, 40, Le(h.shoff, 8), r8);
    BytesSplit(file, 48, Le(h.flags, 4), r9);
    BytesSplit(file, 52, Le(h.ehsize, 2), r10);
    BytesSplit(file, 54, Le(h.phentsize, 2), r11);
    BytesSplit(file, 56, Le(h.phnum, 2), r12);
    BytesFit(file, 0, h.ident);
    FieldRead(file, 18, h.machine, 2);
    FieldRead(file, 32, h.phoff, 8);
    FieldRead(file, 56, h.phnum, 2);
  }

  lemma BytesFit(file: seq<Byte>, at: nat, b: seq<Byte>)
    requires HasBytes(file, at, b)
    ensures at + |b| <= |file| && file[at..at + |b|] == b
  {
  }

  /** The fields of a program header process_run looks at. */
  lemma PhdrRead(file: seq<Byte>, at: nat, p: Phdr)
    requires PhdrOk(p) && HasBytes(file, at, PhdrBytes(p))
    ensures Little(file, at, 4) == p.ptype && Little(file, at + 4, 4) == p.pflags
    ensures U64At(file, at + 8) == p.offset && U64At(file, at + 16) == p.vaddr
    ensures U64At(file, at + 32) == p.filesz && U64At(file, at + 40) == p.memsz
  {
    hide HasBytes, Little, Le;
    Sizes();
    var r7 := Le(p.memsz, 8) + Le(p.align, 8);
    var r6 := Le(p.filesz, 8) + r7;
    var r5 := Le(p.paddr, 8) + r6;
    var r4 := Le(p.vaddr, 8) + r5;
    var r3 := Le(p.offset, 8) + r4;
    var r2 := Le(p.pflags, 4) + r3;
    BytesSplit(file, at, Le(p.ptype, 4), r2);
    BytesSplit(file, at + 4, Le(p.pflags, 4), r3);
    BytesSplit(file, at + 8, Le(p.offset, 8), r4);
    BytesSplit(file, at + 16, Le(p.vaddr, 8), r5);
    BytesSplit(file, at + 24, Le(p.paddr, 8), r6);
    BytesSplit(file, at + 32, Le(p.filesz, 8), r7);
    BytesSplit(file, at + 40, Le(p.memsz, 8), Le(p.align, 8));
    FieldRead(file, at, p.ptype, 4);
    FieldRead(file, at + 4, p.pflags, 4);
    FieldRead(file, at + 8, p.offset, 8);
    FieldRead(file, at + 16, p.vaddr, 8);
    FieldRead(file, at + 32, p.filesz, 8);
    FieldRead(file, at + 40, p.memsz, 8);
  }

  // ---------------------------------------------------------------- the file as a whole

  /** elf_valid accepts a file with a header exactly for the magic number, the 64-bit class and this machine. */
  lemma ElfValidIff(a: Arch, file: seq<Byte>, h: Ehdr)
    requires EhdrOk(h) && HasBytes(file, 0, EhdrBytes(h))
    ensures ElfValid(a, file)
        <==> h.ident[..4] == [0x7F, 0x45, 0x4C, 0x46] && h.ident[4] == 2 && h.machine == (match a case X86 => 62 case A64 => 183)
  {
    hide HasBytes, EhdrBytes, Little;
    EhdrRead(file, h);
    assert forall k: nat :: k < 16 ==> file[..16][k] == file[k];
    assert h.ident[..4] == [h.ident[0], h.ident[1], h.ident[2], h.ident[3]];
  }

  /** And none shorter than a header. */
  lemma ShortIsInvalid(a: Arch, file: seq<Byte>)
    requires |file| < 64
    ensures !ElfValid(a, file)
  {
  }

  /** The PT_LOAD records among phs, in order. */
  function Loads(phs: seq<Phdr>): (r: seq<Phdr>)
    ensures |r| <= |phs|
  {
    if phs == [] then [] else (if phs[0].ptype == 1 then [phs[0]] else []) + Loads(phs[1..])
  }

  /** A segment is the one record p asks for. */
  predicate SegmentIs(seg: Segment, p: Phdr) {
    seg.vaddr == p.vaddr && seg.offset == p.offset && seg.filesz == p.filesz && seg.memsz == p.memsz
    && (seg.writable <==> p.pflags / 2 % 2 == 1)
  }

  ghost predicate SegmentsAre(segs: seq<Segment>, ps: seq<Phdr>) {
    |segs| == |ps| && forall j: nat :: j < |segs| ==> SegmentIs(segs[j], ps[j])
  }

  /** The segments process_run loads are the PT_LOAD records of the file, in order, field by field. */
  lemma SegmentsAreLoads(file: seq<Byte>, h: Ehdr, phs: seq<Phdr>)
    requires ElfFile(file, h, phs)
    ensures SegmentsAre(SegmentsFrom(file, 0), Loads(phs))
  {
    hide SegmentsFrom, Loads;
    assert phs[0..] == phs;
    FromOn(file, h, phs, 0);
  }

  lemma {:induction false} FromOn(file: seq<Byte>, h: Ehdr, phs: seq<Phdr>, i: nat)
    requires ElfFile(file, h, phs) && i <= |phs|
    ensures SegmentsAre(SegmentsFrom(file, i), Loads(phs[i..]))
    decreases |phs| - i
  {
    hide HasBytes, Little, SegmentAt, IsLoad, EhdrBytes, PhdrBytes, SegmentsFrom, Loads, SegmentIs;
    EhdrRead(file, h);
    if i < |phs| {
      SegmentsStep(file, i);
      LoadsStep(phs, i);
      FromOn(file, h, phs, i + 1);
      RecordIs(file, h, phs, i);
    } else {
      FromEnd(file, phs);
    }
  }

  lemma LoadsStep(phs: seq<Phdr>, i: nat)
    requires i < |phs|
    ensures Loads(phs[i..]) == if phs[i].ptype == 1 then [phs[i]] + Loads(phs[i + 1..]) else Loads(phs[i + 1..])
  {
    assert phs[i..][0] == phs[i] && phs[i..][1..] == phs[i + 1..];
  }

  lemma FromEnd(file: seq<Byte>, phs: seq<Phdr>)
    requires HeaderCount(file) == |phs|
    ensures SegmentsFrom(file, |phs|) == [] && Loads(phs[|phs|..]) == []
  {
  }

  lemma RecordIs(file: seq<Byte>, h: Ehdr, phs: seq<Phdr>, i: nat)
    requires ElfFile(file, h, phs) && i < |phs|
    ensures (IsLoad(file, i) <==> phs[i].ptype == 1) && SegmentIs(SegmentAt(file, i), phs[i])
  {
    hide HasBytes, Little, EhdrBytes, PhdrBytes;
    EhdrRead(file, h);
    PhdrRead(file, h.phoff + 56 * i, phs[i]);
  }

  /** Every PT_LOAD record is among them, at the place its predecessors leave it. */
  lemma {:induction false} LoadIsAmong(phs: seq<Phdr>, i: nat)
    requires i < |phs| && phs[i].ptype == 1
    ensures |Loads(phs[..i])| < |Loads(phs)| && Loads(phs)[|Loads(phs[..i])|] == phs[i]
    decreases i
  {
    if i > 0 {
      LoadIsAmong(phs[1..], i - 1);
      assert phs[..i][0] == phs[0] && phs[..i][1..] == phs[1..][..i - 1];
    }
  }
}

/** Page-table words, the radix walk, and the tree of frames a root owns, for both architectures:
    arch/x86_64/mm/vmm.c (4 levels) and arch/aarch64/mm/vmm.c (3 levels). Depth counts down to 1, the
    leaf table. A 64-bit word is held as its frame field (bits 12-51), its low 12 and its high 12 bits; an OR
    of fields that cannot overlap is written as a sum, a mask of low bits as a remainder. */
module PageTable {
  import opened Pmm

  datatype Arch = X86 | A64

  type FrameField = n: nat | n < 0x100_0000_0000
  type Twelve = n: nat | n < 0x1000
  datatype Word = Word(frame: FrameField, low: Twelve, high: Twelve)
  type Table = t: seq<Word> | |t| == 512 witness seq(512, i => Word(0, 0, 0))
  /** Physical memory seen as frames of 512 words; frame numbers fit both ADDR_MASKs. */
  type Memory = m: seq<Table> | |m| <= 0x10_0000_0000
  type Depth = d: nat | 1 <= d <= 4 witness 1
  type Flags = U64Value

  const NIL: Word := Word(0, 0, 0)

  /** The contents zeroed_table leaves. */
  function Zeros(): (t: Table)
    ensures forall i :: 0 <= i < 512 ==> t[i] == NIL
  {
    seq(512, i => NIL)
  }

  function Levels(a: Arch): Depth {
    if a == X86 then 4 else 3
  }

  // ---------------------------------------------------------------- words

  predicate Present(w: Word) { w.low % 2 == 1 }            // VMM_PRESENT, PTE_VALID
  predicate Bit1(w: Word) { w.low / 2 % 2 == 1 }           // VMM_WRITABLE, PTE_TABLE
  predicate Bit2(w: Word) { w.low / 4 % 2 == 1 }           // VMM_USER
  predicate Bit7(w: Word) { w.low / 0x80 % 2 == 1 }        // VMM_HUGE

  predicate PresentFlag(flags: Flags) { flags % 2 == 1 }
  predicate WritableFlag(flags: Flags) { flags / 2 % 2 == 1 }
  predicate UserFlag(flags: Flags) { flags / 4 % 2 == 1 }

  /** Above the leaf level, the entry points to a child table. */
  predicate IsTable(a: Arch, w: Word) {
    Present(w) && if a == X86 then !Bit7(w) else Bit1(w)
  }

  /** get_or_create_table's refusal to descend. */
  predicate Blocked(a: Arch, w: Word) {
    if a == X86 then Bit7(w) else Present(w) && !Bit1(w)
  }

  /** (w & ADDR_MASK) >> 12 */
  function FrameOf(a: Arch, w: Word): nat {
    if a == X86 then w.frame else w.frame % 0x10_0000_0000
  }

  /** (phys & ADDR_MASK) >> 12 */
  function PhysFrame(a: Arch, phys: U64Value): FrameField {
    phys / 4096 % if a == X86 then 0x100_0000_0000 else 0x10_0000_0000
  }

  /** frame | PRESENT | WRITABLE | (flags & USER), or frame | VALID | TABLE */
  function NewEntry(a: Arch, f: FrameField, user: bool): Word {
    Word(f, if a == X86 && user then 7 else 3, 0)
  }

  /** (child & ADDR_MASK) | (src & 0xFFF), or (child & ADDR_MASK) | VALID | TABLE */
  function CloneEntry(a: Arch, f: FrameField, w: Word): Word {
    Word(f, if a == X86 then w.low else 3, 0)
  }

  /** w | VMM_USER */
  function Widen(w: Word): Word {
    if Bit2(w) then w else Word(w.frame, if w.low < 0xFFC then w.low + 4 else 0, w.high)
  }

  /** leaf_flags of the AArch64 side: AP[2:1] in bits 7:6. */
  function LeafFlags(flags: Flags): Twelve {
    0x707 + if UserFlag(flags) then (if WritableFlag(flags) then 0x40 else 0xC0)
            else (if WritableFlag(flags) then 0 else 0x80)
  }

  function LeafEntry(a: Arch, phys: U64Value, flags: Flags): Word {
    Word(PhysFrame(a, phys), if a == X86 then flags % 8 else LeafFlags(flags), 0)
  }

  lemma EntryFacts(a: Arch, f: FrameField, user: bool)
    requires f < 0x10_0000_0000
    ensures var w := NewEntry(a, f, user);
            IsTable(a, w) && !Blocked(a, w) && FrameOf(a, w) == f && Bit1(w) && (a == X86 ==> Bit2(w) == user)
  {
  }

  lemma CloneEntryFacts(a: Arch, f: FrameField, w: Word)
    requires f < 0x10_0000_0000 && IsTable(a, w)
    ensures var c := CloneEntry(a, f, w);
            IsTable(a, c) && !Blocked(a, c) && FrameOf(a, c) == f
            && (a == X86 ==> Bit1(c) == Bit1(w) && Bit2(c) == Bit2(w))
  {
  }

  /** Adding 4 to a number whose bit 2 is clear sets that bit and no other of the flags. */
  lemma PlusFour(n: Twelve)
    requires n / 4 % 2 == 0
    ensures n + 4 < 0x1000 && (n + 4) / 4 % 2 == 1 && (n + 4) % 2 == n % 2
    ensures (n + 4) / 2 % 2 == n / 2 % 2 && (n + 4) / 0x80 == n / 0x80
  {
    var k, l := n / 8, n % 8;
    LowHalf(k, l);
    PlusFourParts(k, l);
  }

  lemma LowHalf(k: nat, l: nat)
    requires l < 8 && (8 * k + l) / 4 % 2 == 0
    ensures l < 4
  {
  }

  lemma PlusFourParts(k: nat, l: nat)
    requires l < 4 && k < 0x200
    ensures (8 * k + l + 4) / 2 == 4 * k + 2 + l / 2 && (8 * k + l) / 2 == 4 * k + l / 2
    ensures (8 * k + l + 4) / 4 == 2 * k + 1
    ensures (8 * k + l + 4) / 0x80 == k / 0x10 && (8 * k + l) / 0x80 == k / 0x10
  {
  }

  lemma WidenFacts(a: Arch, w: Word)
    ensures IsTable(a, Widen(w)) == IsTable(a, w) && FrameOf(a, Widen(w)) == FrameOf(a, w)
    ensures Present(Widen(w)) == Present(w) && Blocked(a, Widen(w)) == Blocked(a, w)
    ensures Bit2(Widen(w)) && Bit1(Widen(w)) == Bit1(w)
  {
    if !Bit2(w) {
      PlusFour(w.low);
    }
  }

  /** The low three bits survive flags & 7. */
  lemma LowThree(flags: Flags)
    ensures flags % 8 % 2 == flags % 2 && flags % 8 / 2 % 2 == flags / 2 % 2 && flags % 8 / 4 % 2 == flags / 4 % 2
  {
    var k, l := flags / 8, flags % 8;
    LowThreeParts(k, l);
  }

  lemma LowThreeParts(k: nat, l: nat)
    requires l < 8
    ensures (8 * k + l) % 2 == l % 2
    ensures (8 * k + l) / 2 == 4 * k + l / 2
    ensures (8 * k + l) / 4 == 2 * k + l / 4
  {
  }

  lemma LeafEntryFacts(a: Arch, phys: U64Value, flags: Flags)
    ensures Present(LeafEntry(a, phys, flags)) == (a == A64 || PresentFlag(flags))
    ensures a == X86 ==> Bit1(LeafEntry(a, phys, flags)) == WritableFlag(flags)
    ensures a == X86 ==> Bit2(LeafEntry(a, phys, flags)) == UserFlag(flags)
    ensures FrameOf(a, LeafEntry(a, phys, flags)) == PhysFrame(a, phys)
  {
    LowThree(flags);
  }

  lemma NilFacts(a: Arch)
    ensures !Present(NIL) && !IsTable(a, NIL) && !Blocked(a, NIL)
  {
  }

  // ---------------------------------------------------------------- memory access

  function Get(m: Memory, f: nat, i: nat): Word {
    if f < |m| && i < 512 then m[f][i] else NIL
  }

  function Put(m: Memory, f: nat, i: nat, w: Word): (r: Memory)
    ensures |r| == |m|
  {
    if f < |m| && i < 512 then m[f := m[f][i := w]] else m
  }

  function Clear(m: Memory, f: nat): (r: Memory)
    ensures |r| == |m|
  {
    if f < |m| then m[f := Zeros()] else m
  }

  // ---------------------------------------------------------------- virtual addresses

  /** Bytes one entry at depth d covers. */
  function EntrySpan(d: Depth): nat {
    if d == 1 then 0x1000 else if d == 2 then 0x20_0000 else if d == 3 then 0x4000_0000 else 0x80_0000_0000
  }

  /** (virt >> (12 + 9 * (d - 1))) & 0x1FF */
  function Index(v: U64Value, d: Depth): (i: nat)
    ensures i < 512
  {
    v / EntrySpan(d) % 512
  }

  /** The two addresses take the same index at depths d, d-1, ..., 1. */
  predicate SamePage(u: U64Value, v: U64Value, d: Depth)
    decreases d
  {
    Index(u, d) == Index(v, d) && (d == 1 || SamePage(u, v, d - 1))
  }

  // ---------------------------------------------------------------- the walk

  datatype Hit = Miss | Leaf(level: Depth, word: Word)

  /** Where a walk of `v` from the table in frame f at depth d ends. */
  function Walk(a: Arch, m: Memory, f: nat, d: Depth, v: U64Value): Hit
    decreases d
  {
    var w := Get(m, f, Index(v, d));
    if d == 1 then (if Present(w) then Leaf(1, w) else Miss)
    else if IsTable(a, w) then Walk(a, m, FrameOf(a, w), d - 1, v)
    else if Present(w) then Leaf(d, w) else Miss
  }

  /** vmm_translate as a function of the walk: only 4KB leaves translate. */
  function Translate(a: Arch, h: Hit, v: U64Value): nat {
    if h.Leaf? && h.level == 1 then FrameOf(a, h.word) * 4096 + v % 4096 else 0
  }

  /** What the hardware does: it also follows block leaves, ignoring address bits below the block size. */
  function HardwareTranslate(a: Arch, h: Hit, v: U64Value): Option<nat> {
    if h.Miss? then None
    else Some(FrameOf(a, h.word) * 4096 / EntrySpan(h.level) * EntrySpan(h.level) + v % EntrySpan(h.level))
  }

  /** The hardware's AND of the writable and the user bit over the table entries of a walk. */
  function GrantsWrite(a: Arch, m: Memory, f: nat, d: Depth, v: U64Value): bool
    decreases d
  {
    var w := Get(m, f, Index(v, d));
    if d > 1 && IsTable(a, w) then Bit1(w) && GrantsWrite(a, m, FrameOf(a, w), d - 1, v) else true
  }

  function GrantsUser(a: Arch, m: Memory, f: nat, d: Depth, v: U64Value): bool
    decreases d
  {
    var w := Get(m, f, Index(v, d));
    if d > 1 && IsTable(a, w) then Bit2(w) && GrantsUser(a, m, FrameOf(a, w), d - 1, v) else true
  }

  // ---------------------------------------------------------------- ownership

  predicate HasKid(a: Arch, m: Memory, f: nat, d: Depth, i: nat) {
    d > 1 && i < 512 && IsTable(a, Get(m, f, i))
  }

  function Kid(a: Arch, m: Memory, f: nat, i: nat): nat {
    FrameOf(a, Get(m, f, i))
  }

  /** The frames of every table reachable from frame f at depth d. */
  ghost function Foot(a: Arch, m: Memory, f: nat, d: Depth): set<nat>
    decreases d, 1
  {
    {f} + set i: nat, x | i < 512 && x in KidFoot(a, m, f, d, i) :: x
  }

  ghost function KidFoot(a: Arch, m: Memory, f: nat, d: Depth, i: nat): set<nat>
    decreases d, 0
  {
    if HasKid(a, m, f, d, i) then Foot(a, m, Kid(a, m, f, i), d - 1) else {}
  }

  /** The tables under f form a tree: every table sits at exactly one position. */
  ghost predicate Tree(a: Arch, m: Memory, f: nat, d: Depth)
    decreases d
  {
    && 0 < f < |m|
    && (forall i: nat :: HasKid(a, m, f, d, i) ==> Tree(a, m, Kid(a, m, f, i), d - 1))
    && (forall i: nat :: f !in KidFoot(a, m, f, d, i))
    && (forall i: nat, j: nat :: i != j ==> KidFoot(a, m, f, d, i) !! KidFoot(a, m, f, d, j))
    && (d > 1 ==> forall i: nat :: i < 512 && !Present(Get(m, f, i)) ==> !Blocked(a, Get(m, f, i)))
  }

  /** The number of tables in the tree, entry by entry from i on. */
  ghost function Tables(a: Arch, m: Memory, f: nat, d: Depth): nat
    decreases d, 513
  {
    1 + TablesFrom(a, m, f, d, 0)
  }

  ghost function TablesFrom(a: Arch, m: Memory, f: nat, d: Depth, i: nat): nat
    requires i <= 512
    decreases d, 512 - i
  {
    if i == 512 then 0
    else (if HasKid(a, m, f, d, i) then Tables(a, m, Kid(a, m, f, i), d - 1) else 0) + TablesFrom(a, m, f, d, i + 1)
  }

  /** The tables vmm_map has to create to reach v's leaf table. */
  function Missing(a: Arch, m: Memory, f: nat, d: Depth, v: U64Value): nat
    decreases d
  {
    var w := Get(m, f, Index(v, d));
    if d == 1 then 0
    else if IsTable(a, w) then Missing(a, m, FrameOf(a, w), d - 1, v)
    else if Present(w) then 0 else d - 1
  }

  // ---------------------------------------------------------------- the operations of vmm.c

  datatype Phys = Phys(mem: Memory, used: set<nat>)

  /** pmm_alloc_frame, as a frame number; 0 when memory is exhausted. */
  function AllocFrame(s: Phys): (r: (Phys, nat))
    ensures r.1 < 0x10_0000_0000
  {
    match FirstRun(s.used, |s.mem|, 1, 0)
    case None => (s, 0)
    case Some(f) => FirstRunIsLowest(s.used, |s.mem|, 1, 0); (s.(used := s.used + {f}), f)
  }

  /** get_or_create_table; frame 0 stands for NULL. */
  function GetOrCreate(a: Arch, s: Phys, f: nat, i: nat, user: bool): (Phys, nat) {
    var w := Get(s.mem, f, i);
    if Blocked(a, w) then (s, 0)
    else if !Present(w) then
      var (s1, g) := AllocFrame(s);
      var m := Put(Clear(s1.mem, g), f, i, NewEntry(a, g, user));
      (s1.(mem := m), FrameOf(a, Get(m, f, i)))
    else if a == X86 && user then
      (s.(mem := Put(s.mem, f, i, Widen(w))), FrameOf(a, Widen(w)))
    else (s, FrameOf(a, w))
  }

  /** vmm_map below the table in frame f: descend, creating tables, then write the leaf entry. */
  function MapPage(a: Arch, s: Phys, f: nat, d: Depth, v: U64Value, phys: U64Value, flags: Flags): Phys
    decreases d
  {
    var i := Index(v, d);
    if d == 1 then
      if a == A64 && !PresentFlag(flags) then s
      else s.(mem := Put(s.mem, f, i, LeafEntry(a, phys, flags)))
    else
      var (s1, c) := GetOrCreate(a, s, f, i, UserFlag(flags));
      if c == 0 then s1 else MapPage(a, s1, c, d - 1, v, phys, flags)
  }

  /** vmm_unmap */
  function UnmapPage(a: Arch, m: Memory, f: nat, d: Depth, v: U64Value): Memory
    decreases d
  {
    var i := Index(v, d);
    var w := Get(m, f, i);
    if d == 1 then Put(m, f, i, NIL)
    else if IsTable(a, w) then UnmapPage(a, m, FrameOf(a, w), d - 1, v)
    else m
  }

  /** clone_table_level: a fresh zeroed table, filled entry by entry. */
  function Clone(a: Arch, s: Phys, src: nat, d: Depth): (r: (Phys, nat))
    ensures r.1 < 0x10_0000_0000
    decreases d, 513
  {
    var (s1, g) := AllocFrame(s);
    (CloneFrom(a, s1.(mem := Clear(s1.mem, g)), src, g, d, 0), g)
  }

  function CloneFrom(a: Arch, s: Phys, src: nat, dst: nat, d: Depth, i: nat): Phys
    requires i <= 512
    decreases d, 512 - i
  {
    if i == 512 then s
    else CloneFrom(a, CloneSlot(a, s, src, dst, d, i), src, dst, d, i + 1)
  }

  /** One turn of clone_table_level's loop. */
  function CloneSlot(a: Arch, s: Phys, src: nat, dst: nat, d: Depth, i: nat): Phys
    requires i < 512
    decreases d, 512 - i, 0
  {
    var w := Get(s.mem, src, i);
    if !Present(w) then s
    else if d == 1 || !IsTable(a, w) then s.(mem := Put(s.mem, dst, i, w))
    else
      var (s1, c) := Clone(a, s, FrameOf(a, w), d - 1);
      s1.(mem := Put(s1.mem, dst, i, CloneEntry(a, c, w)))
  }

  /** free_table_level: what remains used after freeing every table under f. Memory is not written. */
  function Release(a: Arch, m: Memory, used: set<nat>, f: nat, d: Depth): set<nat>
    decreases d, 513
  {
    (if d > 1 then ReleaseFrom(a, m, used, f, d, 0) else used) - {f}
  }

  function ReleaseFrom(a: Arch, m: Memory, used: set<nat>, f: nat, d: Depth, i: nat): set<nat>
    requires d > 1 && i <= 512
    decreases d, 512 - i
  {
    if i == 512 then used
    else
      var w := Get(m, f, i);
      ReleaseFrom(a, m, if IsTable(a, w) then Release(a, m, used, FrameOf(a, w), d - 1) else used, f, d, i + 1)
  }
}

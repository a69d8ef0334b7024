/** vmm.c of both architectures as it runs: page tables written in place in a memory of frames, on top of
    the bitmap allocator. Every method is proved against the function of PageTable it computes. */
module Vmm {
  import opened Pmm
  import opened PageTable

  /** address_space_t: pml4_phys or l1_phys, as a frame number. */
  class AddressSpace {
    var root: nat
    constructor (root: nat)
      ensures this.root == root
    {
      this.root := root;
    }
  }

  class Machine {
    var mem: Memory
    const pmm: FrameBitmap
    const kernelSpace: AddressSpace

    ghost predicate Valid()
      reads this, pmm, pmm.bitmap
    {
      pmm.Valid() && pmm.total == |mem|
    }

    ghost function State(): Phys
      requires Valid()
      reads this, pmm, pmm.bitmap
    {
      Phys(mem, pmm.Used())
    }

    constructor (mem: Memory, pmm: FrameBitmap, kernelSpace: AddressSpace)
      requires pmm.Valid() && pmm.total == |mem|
      ensures Valid() && State() == Phys(mem, pmm.Used())
      ensures this.pmm == pmm && this.kernelSpace == kernelSpace
    {
      this.mem, this.pmm, this.kernelSpace := mem, pmm, kernelSpace;
    }

    /** pmm_alloc_frame, returning the frame number of the address. */
    method Alloc() returns (frame: nat)
      requires Valid()
      modifies pmm`freeFrames, pmm.bitmap
      ensures Valid() && frame < 0x10_0000_0000
      ensures (State(), frame) == AllocFrame(old(State()))
    {
      FirstRunIsLowest(pmm.Used(), |mem|, 1, 0);
      var addr := pmm.AllocFrame();
      frame := addr / FRAME_SIZE;
    }

    method ZeroedTable(frame: nat)
      requires Valid()
      modifies this`mem
      ensures Valid() && mem == Clear(old(mem), frame)
    {
      var i := 0;
      while i < 512
        invariant 0 <= i <= 512 && |mem| == |old(mem)|
        invariant forall x :: 0 <= x < |mem| && x != frame ==> mem[x] == old(mem)[x]
        invariant frame < |mem| ==> forall j :: 0 <= j < 512 ==> mem[frame][j] == if j < i then NIL else old(mem)[frame][j]
      {
        mem := Put(mem, frame, i, NIL);
        i := i + 1;
      }
      if frame < |mem| {
        assert mem[frame] == Zeros();
      }
    }

    // -------------------------------------------------------------- arch/x86_64/mm/vmm.c

    method GetOrCreateX86(parent: nat, index: nat, flags: Flags) returns (table: nat)
      requires Valid() && index < 512
      modifies this`mem, pmm`freeFrames, pmm.bitmap
      ensures Valid()
      ensures (State(), table) == GetOrCreate(X86, old(State()), parent, index, UserFlag(flags))
    {
      var e := Get(mem, parent, index);
      if Bit7(e) {
        return 0;
      }
      if !Present(e) {
        var frame := Alloc();
        ZeroedTable(frame);
        mem := Put(mem, parent, index, Word(frame, 3 + (if UserFlag(flags) then 4 else 0), 0));
      } else if UserFlag(flags) {
        mem := Put(mem, parent, index, Widen(e));
      }
      return FrameOf(X86, Get(mem, parent, index));
    }

    /** level: 4 = PML4, 3 = PDPT, 2 = PD, 1 = PT */
    method CloneTableLevelX86(src: nat, level: Depth) returns (dst: nat)
      requires Valid()
      modifies this`mem, pmm`freeFrames, pmm.bitmap
      ensures Valid() && dst < 0x10_0000_0000
      ensures (State(), dst) == Clone(X86, old(State()), src, level)
      decreases level
    {
      hide AllocFrame, Clear,
        FrameBitmap.Used, FrameBitmap.Valid, TestByte, Pmm.Free;
      dst := Alloc();
      ZeroedTable(dst);
      ghost var start := State();
      var i := 0;
      while i < 512
        invariant 0 <= i <= 512 && Valid() && dst < 0x10_0000_0000
        invariant CloneFrom(X86, State(), src, dst, level, i) == CloneFrom(X86, start, src, dst, level, 0)
      {
        ghost var before := State();
        var w := Get(mem, src, i);
        if Present(w) {
          var leaf := level == 1 || Bit7(w);
          if leaf {
            mem := Put(mem, dst, i, w);
          } else {
            var child := CloneTableLevelX86(FrameOf(X86, w), level - 1);
            mem := Put(mem, dst, i, Word(child, w.low, 0));
          }
        }
        assert State() == CloneSlot(X86, before, src, dst, level, i);
        i := i + 1;
      }
    }

    method FreeTableLevelX86(table: nat, level: Depth)
      requires Valid()
      modifies pmm`freeFrames, pmm.bitmap
      ensures Valid() && State() == old(State()).(used := Release(X86, mem, old(State()).used, table, level))
      decreases level
    {
      if level > 1 {
        var i := 0;
        while i < 512
          invariant 0 <= i <= 512 && Valid()
          invariant ReleaseFrom(X86, mem, State().used, table, level, i)
                    == ReleaseFrom(X86, mem, old(State()).used, table, level, 0)
        {
          var w := Get(mem, table, i);
          if Present(w) && !Bit7(w) {
            FreeTableLevelX86(FrameOf(X86, w), level - 1);
          }
          i := i + 1;
        }
      }
      pmm.FreeFrame(table * FRAME_SIZE);
    }

    method CreateX86() returns (space: AddressSpace)
      requires Valid()
      modifies this`mem, pmm`freeFrames, pmm.bitmap
      ensures Valid() && fresh(space)
      ensures (State(), space.root) == Clone(X86, old(State()), kernelSpace.root, 4)
    {
      var root := CloneTableLevelX86(kernelSpace.root, 4);
      space := new AddressSpace(root);
    }

    method DestroyX86(space: AddressSpace)
      requires Valid()
      modifies pmm`freeFrames, pmm.bitmap
      ensures Valid()
      ensures State() == if space == kernelSpace then old(State())
                         else old(State()).(used := Release(X86, mem, old(State()).used, space.root, 4))
    {
      if space == kernelSpace {
        return;
      }
      FreeTableLevelX86(space.root, 4);
    }

    method MapX86(space: AddressSpace, virt: U64Value, phys: U64Value, flags: Flags)
      requires Valid()
      modifies this`mem, pmm`freeFrames, pmm.bitmap
      ensures Valid() && State() == MapPage(X86, old(State()), space.root, 4, virt, phys, flags)
    {
      hide GetOrCreate, Index,
        FrameBitmap.Used, FrameBitmap.Valid, TestByte, Pmm.Free;
      var i4, i3, i2, i1 := Index(virt, 4), Index(virt, 3), Index(virt, 2), Index(virt, 1);
      var pml4 := space.root;
      var pdpt := GetOrCreateX86(pml4, i4, flags);
      if pdpt == 0 { return; }
      var pd := GetOrCreateX86(pdpt, i3, flags);
      if pd == 0 { return; }
      var pt := GetOrCreateX86(pd, i2, flags);
      if pt == 0 { return; }
      mem := Put(mem, pt, i1, Word(PhysFrame(X86, phys), flags % 8, 0));
    }

    method UnmapX86(space: AddressSpace, virt: U64Value)
      requires Valid()
      modifies this`mem
      ensures Valid() && State() == old(State()).(mem := UnmapPage(X86, old(mem), space.root, 4, virt))
    {
      var pml4 := space.root;
      var e4 := Get(mem, pml4, Index(virt, 4));
      if !Present(e4) || Bit7(e4) { return; }
      var pdpt := FrameOf(X86, e4);
      var e3 := Get(mem, pdpt, Index(virt, 3));
      if !Present(e3) || Bit7(e3) { return; }
      var pd := FrameOf(X86, e3);
      var e2 := Get(mem, pd, Index(virt, 2));
      if !Present(e2) || Bit7(e2) { return; }
      var pt := FrameOf(X86, e2);
      mem := Put(mem, pt, Index(virt, 1), NIL);
    }

    method TranslateX86(space: AddressSpace, virt: U64Value) returns (phys: nat)
      ensures phys == Translate(X86, Walk(X86, mem, space.root, 4, virt), virt)
    {
      var pml4 := space.root;
      var e4 := Get(mem, pml4, Index(virt, 4));
      if !Present(e4) || Bit7(e4) { return 0; }
      var pdpt := FrameOf(X86, e4);
      var e3 := Get(mem, pdpt, Index(virt, 3));
      if !Present(e3) || Bit7(e3) { return 0; }
      var pd := FrameOf(X86, e3);
      var e2 := Get(mem, pd, Index(virt, 2));
      if !Present(e2) || Bit7(e2) { return 0; }
      var pt := FrameOf(X86, e2);
      var e1 := Get(mem, pt, Index(virt, 1));
      if !Present(e1) { return 0; }
      return FrameOf(X86, e1) * 4096 + virt % 4096;
    }

    // -------------------------------------------------------------- arch/aarch64/mm/vmm.c

    method GetOrCreateA64(parent: nat, index: nat) returns (table: nat)
      requires Valid() && index < 512
      modifies this`mem, pmm`freeFrames, pmm.bitmap
      ensures Valid()
      ensures forall user :: (State(), table) == GetOrCreate(A64, old(State()), parent, index, user)
    {
      var e := Get(mem, parent, index);
      if Present(e) && !Bit1(e) {
        return 0;
      }
      if !Present(e) {
        var frame := Alloc();
        ZeroedTable(frame);
        mem := Put(mem, parent, index, Word(frame, 3, 0));
      }
      return FrameOf(A64, Get(mem, parent, index));
    }

    /** level: 1 = L1, 2 = L2, 3 = L3 */
    method CloneTableLevelA64(src: nat, level: nat) returns (dst: nat)
      requires Valid() && 1 <= level <= 3
      modifies this`mem, pmm`freeFrames, pmm.bitmap
      ensures Valid() && dst < 0x10_0000_0000
      ensures (State(), dst) == Clone(A64, old(State()), src, 4 - level)
      decreases 3 - level
    {
      hide AllocFrame, Clear,
        FrameBitmap.Used, FrameBitmap.Valid, TestByte, Pmm.Free;
      dst := Alloc();
      ZeroedTable(dst);
      ghost var start := State();
      var i := 0;
      while i < 512
        invariant 0 <= i <= 512 && Valid() && dst < 0x10_0000_0000
        invariant CloneFrom(A64, State(), src, dst, 4 - level, i) == CloneFrom(A64, start, src, dst, 4 - level, 0)
      {
        ghost var before := State();
        var w := Get(mem, src, i);
        if Present(w) {
          var leaf := level == 3 || !Bit1(w);
          if leaf {
            mem := Put(mem, dst, i, w);
          } else {
            var child := CloneTableLevelA64(FrameOf(A64, w), level + 1);
            mem := Put(mem, dst, i, Word(child, 3, 0));
          }
        }
        assert State() == CloneSlot(A64, before, src, dst, 4 - level, i);
        i := i + 1;
      }
    }

    method FreeTableLevelA64(table: nat, level: nat)
      requires Valid() && 1 <= level <= 3
      modifies pmm`freeFrames, pmm.bitmap
      ensures Valid() && State() == old(State()).(used := Release(A64, mem, old(State()).used, table, 4 - level))
      decreases 3 - level
    {
      if level < 3 {
        var i := 0;
        while i < 512
          invariant 0 <= i <= 512 && Valid()
          invariant ReleaseFrom(A64, mem, State().used, table, 4 - level, i)
                    == ReleaseFrom(A64, mem, old(State()).used, table, 4 - level, 0)
        {
          var w := Get(mem, table, i);
          if Present(w) && Bit1(w) {
            FreeTableLevelA64(FrameOf(A64, w), level + 1);
          }
          i := i + 1;
        }
      }
      pmm.FreeFrame(table * FRAME_SIZE);
    }

    method CreateA64() returns (space: AddressSpace)
      requires Valid()
      modifies this`mem, pmm`freeFrames, pmm.bitmap
      ensures Valid() && fresh(space)
      ensures (State(), space.root) == Clone(A64, old(State()), kernelSpace.root, 3)
    {
      var root := CloneTableLevelA64(kernelSpace.root, 1);
      space := new AddressSpace(root);
    }

    method DestroyA64(space: AddressSpace)
      requires Valid()
      modifies pmm`freeFrames, pmm.bitmap
      ensures Valid()
      ensures State() == if space == kernelSpace then old(State())
                         else old(State()).(used := Release(A64, mem, old(State()).used, space.root, 3))
    {
      if space == kernelSpace {
        return;
      }
      FreeTableLevelA64(space.root, 1);
    }

    method MapA64(space: AddressSpace, virt: U64Value, phys: U64Value, flags: Flags)
      requires Valid()
      modifies this`mem, pmm`freeFrames, pmm.bitmap
      ensures Valid() && State() == MapPage(A64, old(State()), space.root, 3, virt, phys, flags)
    {
      hide GetOrCreate, Index,
        FrameBitmap.Used, FrameBitmap.Valid, TestByte, Pmm.Free;
      var i1, i2, i3 := Index(virt, 3), Index(virt, 2), Index(virt, 1);
      var l1 := space.root;
      var l2 := GetOrCreateA64(l1, i1);
      if l2 == 0 { return; }
      var l3 := GetOrCreateA64(l2, i2);
      if l3 == 0 { return; }
      if !PresentFlag(flags) { return; }
      mem := Put(mem, l3, i3, Word(PhysFrame(A64, phys), LeafFlags(flags), 0));
    }

    method UnmapA64(space: AddressSpace, virt: U64Value)
      requires Valid()
      modifies this`mem
      ensures Valid() && State() == old(State()).(mem := UnmapPage(A64, old(mem), space.root, 3, virt))
    {
      var l1 := space.root;
      var e1 := Get(mem, l1, Index(virt, 3));
      if !Present(e1) || !Bit1(e1) { return; }
      var l2 := FrameOf(A64, e1);
      var e2 := Get(mem, l2, Index(virt, 2));
      if !Present(e2) || !Bit1(e2) { return; }
      var l3 := FrameOf(A64, e2);
      mem := Put(mem, l3, Index(virt, 1), NIL);
    }

    method TranslateA64(space: AddressSpace, virt: U64Value) returns (phys: nat)
      ensures phys == Translate(A64, Walk(A64, mem, space.root, 3, virt), virt)
    {
      var l1 := space.root;
      var e1 := Get(mem, l1, Index(virt, 3));
      if !Present(e1) || !Bit1(e1) { return 0; }
      var l2 := FrameOf(A64, e1);
      var e2 := Get(mem, l2, Index(virt, 2));
      if !Present(e2) || !Bit1(e2) { return 0; }
      var l3 := FrameOf(A64, e2);
      var e3 := Get(mem, l3, Index(virt, 1));
      if !Present(e3) { return 0; }
      return FrameOf(A64, e3) * 4096 + virt % 4096;
    }
  }
}

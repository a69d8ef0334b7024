/** process_run of both architectures: ELF headers, the loader as it runs on the machine, and what a process
    leaves behind. */
module Process {
  import opened Pmm
  import opened PageTable
  import opened PageTree
  import opened PageOps
  import opened PageRuns
  import PageTheorems
  import opened PageClone
  import opened PhysBytes
  import opened Loader
  import opened LoaderImage
  import opened LoaderRuns
  import opened Elf
  import opened Vmm
  import opened HeapView
  import opened HeapRuns
  import opened Heap
  import Kernel

  // ---------------------------------------------------------------- process_run as it runs

  const SPACE_SIZE: nat := 8              // sizeof(address_space_t)
  const LAUNCH_STACK_SIZE: nat := 0x4000

  /** Block j of arena i is live and ptr points to its payload. */
  ghost predicate LiveAt(v: View, i: nat, j: nat, ptr: nat) {
    ptr != 0 && i < |v| && j < |v[i].cells| && !v[i].cells[j].free && v[i].cells[j].Payload() == ptr
  }

  /** kmalloc among the frames in use, for the two sizes asked for here. */
  function Block(v: View, used: set<nat>, total: nat, size: U64Value): (HeapState, nat)
    requires size <= LAUNCH_STACK_SIZE
  {
    SmallRequest(HeapState(v, used), total, size);
    HeapView.Kmalloc(HeapState(v, used), total, size)
  }

  lemma SmallRequest(h: HeapState, total: nat, size: U64Value)
    requires size <= LAUNCH_STACK_SIZE
    ensures !Overrun(h, total, size)
  {
    RequestSizes(size);
  }

  /** The block for the address_space_t has room for its eight bytes, the launch stack is of 16KB. */
  lemma BlockRoom(v: View, used: set<nat>, total: nat)
    requires HeapOk(HeapState(v, used), total)
    ensures var (g, p) := Block(v, used, total, SPACE_SIZE);
            p != 0 ==> exists c :: c in Live(g.v) && c.Payload() == p && 8 <= c.size < 48
    ensures var (g, p) := Block(v, used, total, LAUNCH_STACK_SIZE);
            p != 0 ==> exists c :: c in Live(g.v) && c.Payload() == p && 0x4000 <= c.size < 0x4028
  {
    hide HeapOk, Live, HeapView.Kmalloc, Overrun;
    SmallRequest(HeapState(v, used), total, SPACE_SIZE);
    SmallRequest(HeapState(v, used), total, LAUNCH_STACK_SIZE);
    var c := KmallocFacts(HeapState(v, used), total, SPACE_SIZE);
    var d := KmallocFacts(HeapState(v, used), total, LAUNCH_STACK_SIZE);
  }

  class Launcher {
    const arch: Arch
    const machine: Machine
    const heap: KernelHeap

    ghost predicate Valid()
      reads this, machine, heap, machine.pmm, machine.pmm.bitmap, heap.pmm, heap.pmm.bitmap
    {
      machine.Valid() && heap.Valid() && heap.pmm == machine.pmm
    }

    constructor (arch: Arch, machine: Machine, heap: KernelHeap)
      requires machine.Valid() && heap.Valid() && heap.pmm == machine.pmm
      ensures Valid() && this.arch == arch && this.machine == machine && this.heap == heap
    {
      this.arch, this.machine, this.heap := arch, machine, heap;
    }

    /** vmm_create_address_space: the clone of the kernel's tables, and a heap block for the address_space_t. */
    method Create() returns (space: AddressSpace, block: nat)
      requires Valid()
      modifies machine`mem, machine.pmm`freeFrames, machine.pmm.bitmap
      modifies heap`arenaList, heap`arenas, heap`blocks, heap`view
      ensures Valid() && fresh(space)
      ensures var (s1, root) := Clone(arch, old(machine.State()), machine.kernelSpace.root, Levels(arch));
              && space.root == root && machine.mem == s1.mem
              && (heap.State(), block) == Block(old(heap.view), s1.used, |s1.mem|, SPACE_SIZE)
    {
      hide Clone, HeapOk, Linked, HeapView.Kmalloc, Overrun;
      CloneTakes(arch, machine.State(), machine.kernelSpace.root, Levels(arch));
      ghost var before := machine.State();
      if arch == X86 {
        space := machine.CreateX86();
      } else {
        space := machine.CreateA64();
      }
      StillHeap(heap.view, before.used, machine.State().used, machine.pmm.total);
      SmallRequest(heap.State(), machine.pmm.total, SPACE_SIZE);
      block := heap.Kmalloc(SPACE_SIZE);
    }

    /** vmm_destroy_address_space: nothing for the kernel's space. No table lies in an arena. */
    method Destroy(space: AddressSpace, block: nat, ghost i: nat, ghost j: nat)
      requires Valid()
      requires space != machine.kernelSpace ==>
                 && LiveAt(heap.view, i, j, block)
                 && Foot(arch, machine.mem, space.root, Levels(arch)) !! Kernel.ArenaFrames(heap.view)
                 && 0 !in Foot(arch, machine.mem, space.root, Levels(arch))
      modifies machine.pmm`freeFrames, machine.pmm.bitmap, heap`blocks, heap`view
      ensures Valid()
      ensures space == machine.kernelSpace ==> machine.State() == old(machine.State()) && heap.view == old(heap.view)
      ensures space != machine.kernelSpace ==>
                && machine.State() == old(machine.State()).(used := old(machine.State()).used - Foot(arch, machine.mem, space.root, Levels(arch)))
                && heap.view == HeapView.Kfree(old(heap.State()), i, j).v
    {
      hide Foot, HeapOk, Linked, Release, GiveCell, Kernel.ArenaFrames;
      ghost var before := machine.State();
      ReleaseFacts(arch, machine.mem, before.used, space.root, Levels(arch));
      if arch == X86 {
        machine.DestroyX86(space);
      } else {
        machine.DestroyA64(space);
      }
      if space == machine.kernelSpace {
        return;
      }
      ArenasInUse(heap.view, before.used, machine.pmm.total);
      Kernel.ArenasUsed(heap.view, before.used, machine.State().used, machine.pmm.total);
      heap.Kfree(block, i, j);
    }

    method Map(space: AddressSpace, va: U64Value, phys: U64Value, flags: Flags)
      requires machine.Valid()
      modifies machine`mem, machine.pmm`freeFrames, machine.pmm.bitmap
      ensures machine.Valid()
      ensures machine.State() == MapPage(arch, old(machine.State()), space.root, Levels(arch), va, phys, flags)
    {
      if arch == X86 {
        machine.MapX86(space, va, phys, flags);
      } else {
        machine.MapA64(space, va, phys, flags);
      }
    }

    method Translate(space: AddressSpace, va: U64Value) returns (phys: nat)
      ensures phys == PhysAddr(arch, machine.mem, space.root, va)
    {
      if arch == X86 {
        phys := machine.TranslateX86(space, va);
      } else {
        phys := machine.TranslateA64(space, va);
      }
    }

    /** The byte loop that clears a new frame. */
    method ZeroFrame(frame: nat)
      requires machine.Valid()
      modifies machine`mem
      ensures machine.Valid()
      ensures machine.State() == old(machine.State()).(mem := ZeroBytes(old(machine.mem), frame, 0))
    {
      hide StoreByte;
      var b := 0;
      while b < PAGE
        invariant b <= PAGE && machine.Valid() && machine.State().used == old(machine.State()).used
        invariant ZeroBytes(machine.mem, frame, b) == ZeroBytes(old(machine.mem), frame, 0)
      {
        machine.mem := StoreByte(machine.mem, frame * PAGE + b, 0);
        b := b + 1;
      }
    }

    method MapSegment(space: AddressSpace, seg: Segment)
      requires machine.Valid()
      modifies machine`mem, machine.pmm`freeFrames, machine.pmm.bitmap
      ensures machine.Valid()
      ensures machine.State()
           == MapRange(arch, old(machine.State()), space.root, PageStart(seg), PageEnd(seg), SegmentFlags(seg))
    {
      hide ZeroBytes, MapPage, AllocFrame;
      var va: nat := seg.vaddr / PAGE * PAGE;
      var vend := ((seg.vaddr + seg.memsz) % U64 + PAGE - 1) % U64 / PAGE * PAGE;
      var flags := if seg.writable then 7 else 5;
      while va < vend
        invariant machine.Valid() && space.root == old(space.root)
        invariant MapRange(arch, machine.State(), space.root, va, vend, flags)
               == MapRange(arch, old(machine.State()), space.root, PageStart(seg), vend, flags)
        decreases vend - va
      {
        var frame := machine.Alloc();
        ZeroFrame(frame);
        Map(space, va, frame * PAGE, flags);
        va := va + PAGE;
      }
    }

    method CopySegment(space: AddressSpace, seg: Segment, elf: seq<Byte>)
      requires machine.Valid()
      modifies machine`mem
      ensures machine.Valid()
      ensures machine.State() == CopyBytes(arch, old(machine.State()), space.root, seg, elf, 0)
    {
      hide StoreByte, PhysAddr;
      var off := 0;
      while off < seg.filesz
        invariant off <= seg.filesz && machine.Valid()
        invariant CopyBytes(arch, machine.State(), space.root, seg, elf, off)
               == CopyBytes(arch, old(machine.State()), space.root, seg, elf, 0)
      {
        var pa := Translate(space, (seg.vaddr + off) % U64);
        machine.mem := StoreByte(machine.mem, pa, ByteAt(elf, seg.offset + off));
        off := off + 1;
      }
    }

    method LoadAll(space: AddressSpace, elf: seq<Byte>)
      requires machine.Valid()
      modifies machine`mem, machine.pmm`freeFrames, machine.pmm.bitmap
      ensures machine.Valid()
      ensures machine.State() == LoadSegments(arch, old(machine.State()), space.root, SegmentsFrom(elf, 0), elf)
    {
      hide LoadSegment, LoadSegments, SegmentAt, IsLoad, HeaderCount, SegmentsFrom, MapRange, CopyBytes;
      var i := 0;
      while i < HeaderCount(elf)
        invariant i <= HeaderCount(elf) && machine.Valid()
        invariant LoadSegments(arch, machine.State(), space.root, SegmentsFrom(elf, i), elf)
               == LoadSegments(arch, old(machine.State()), space.root, SegmentsFrom(elf, 0), elf)
      {
        ghost var before := machine.State();
        SegmentsStep(elf, i);
        if IsLoad(elf, i) {
          var seg := SegmentAt(elf, i);
          MapSegment(space, seg);
          CopySegment(space, seg, elf);
          LoadedOne(arch, before, machine.State(), space.root, seg, SegmentsFrom(elf, i + 1), elf);
        }
        i := i + 1;
      }
      SegmentsEnd(arch, machine.State(), space.root, elf, i);
    }

    method MapUserStack(space: AddressSpace)
      requires machine.Valid()
      modifies machine`mem, machine.pmm`freeFrames, machine.pmm.bitmap
      ensures machine.Valid()
      ensures machine.State() == MapStack(arch, old(machine.State()), space.root, 0)
    {
      hide MapPage, AllocFrame;
      var i := 0;
      while i < STACK_PAGES
        invariant i <= STACK_PAGES && machine.Valid()
        invariant MapStack(arch, machine.State(), space.root, i) == MapStack(arch, old(machine.State()), space.root, 0)
      {
        var frame := machine.Alloc();
        Map(space, StackTop(arch) - (i + 1) * PAGE, frame * PAGE, 7);
        i := i + 1;
      }
    }

    /** process_run up to the switch to the new space; None is the -1 for a file that is no ELF image. */
    method Launch(elf: seq<Byte>) returns (space: Option<AddressSpace>, block: nat, stack: nat)
      requires Valid()
      modifies machine`mem, machine.pmm`freeFrames, machine.pmm.bitmap
      modifies heap`arenaList, heap`arenas, heap`blocks, heap`view
      ensures Valid() && (space.Some? <==> ElfValid(arch, elf))
      ensures space.None? ==> machine.State() == old(machine.State()) && heap.view == old(heap.view)
      ensures space.Some? ==>
                var (s1, root) := Clone(arch, old(machine.State()), machine.kernelSpace.root, Levels(arch));
                var (h1, b) := Block(old(heap.view), s1.used, |s1.mem|, SPACE_SIZE);
                var t := LoadImage(arch, Phys(s1.mem, h1.used), root, SegmentsFrom(elf, 0), elf);
                && fresh(space.value) && space.value.root == root && block == b && machine.mem == t.mem
                && (heap.State(), stack) == Block(h1.v, t.used, |t.mem|, LAUNCH_STACK_SIZE)
    {
      hide Clone, LoadSegments, MapStack, ElfValid, SegmentsFrom, HeapOk, Linked, HeapView.Kmalloc, Overrun;
      block, stack := 0, 0;
      if !ElfValid(arch, elf) {
        return None, 0, 0;
      }
      var as_;
      as_, block := Create();
      ghost var created := machine.State();
      LoadAll(as_, elf);
      MapUserStack(as_);
      LoadTakes(arch, created, as_.root, SegmentsFrom(elf, 0), elf);
      StillHeap(heap.view, created.used, machine.State().used, machine.pmm.total);
      SmallRequest(heap.State(), machine.pmm.total, LAUNCH_STACK_SIZE);
      stack := heap.Kmalloc(LAUNCH_STACK_SIZE);
      space := Some(as_);
    }

    /** process_run after the process has exited: the space is destroyed, the launch stack freed. */
    method Finish(space: AddressSpace, block: nat, stack: nat, ghost i: nat, ghost j: nat, ghost k: nat, ghost l: nat)
      requires Valid() && space != machine.kernelSpace && LiveAt(heap.view, i, j, block)
      requires LiveAt(HeapView.Kfree(heap.State(), i, j).v, k, l, stack)
      requires Foot(arch, machine.mem, space.root, Levels(arch)) !! Kernel.ArenaFrames(heap.view)
      requires 0 !in Foot(arch, machine.mem, space.root, Levels(arch))
      modifies machine.pmm`freeFrames, machine.pmm.bitmap, heap`blocks, heap`view
      ensures Valid()
      ensures machine.State() == old(machine.State()).(used := old(machine.State()).used - Foot(arch, machine.mem, space.root, Levels(arch)))
      ensures heap.view == HeapView.Kfree(HeapView.Kfree(old(heap.State()), i, j), k, l).v
    {
      hide Foot, HeapOk, Linked, Kernel.ArenaFrames;
      Destroy(space, block, i, j);
      heap.Kfree(stack, k, l);
    }
  }

  /** The heap stays sound while others take frames ... */
  lemma StillHeap(v: View, used: set<nat>, used': set<nat>, total: nat)
    requires HeapOk(HeapState(v, used), total) && used <= used' && forall f: nat :: f in used' ==> f < total
    ensures HeapOk(HeapState(v, used'), total)
  {
    hide ViewOk, Span;
  }

  /** ... and its arenas are in use. */
  lemma ArenasInUse(v: View, used: set<nat>, total: nat)
    requires HeapOk(HeapState(v, used), total)
    ensures Kernel.ArenaFrames(v) <= used && 0 in used
  {
    hide ViewOk, Span;
  }

  lemma SegmentsEnd(a: Arch, s: Phys, root: nat, file: seq<Byte>, i: nat)
    requires i >= HeaderCount(file)
    ensures LoadSegments(a, s, root, SegmentsFrom(file, i), file) == s
  {
  }

  lemma LoadedOne(a: Arch, s: Phys, t: Phys, root: nat, seg: Segment, rest: seq<Segment>, file: seq<Byte>)
    requires t == CopyBytes(a, MapRange(a, s, root, PageStart(seg), PageEnd(seg), SegmentFlags(seg)), root, seg, file, 0)
    ensures LoadSegments(a, s, root, [seg] + rest, file) == LoadSegments(a, t, root, rest, file)
  {
    hide CopyBytes, MapRange, PageStart, PageEnd;
    assert ([seg] + rest)[1..] == rest;
  }

  // ---------------------------------------------------------------- the life of a process

  /** The image fits beside what the kernel's space maps, and there are frames for the clone and the image. */
  ghost predicate LaunchReady(a: Arch, y: Sys, id: nat, segs: seq<Segment>) {
    && Inv(a, y) && id !in y.roots
    && (forall seg :: seg in segs ==> SegmentOk(a, seg))
    && (forall u :: Covered(segs, u) ==> !InStack(a, u))
    && (forall u :: Covered(segs, u) || InStack(a, u) ==> !Stops(Look(a, y.s.mem, y.roots[0], u)))
    && Tables(a, y.s.mem, y.roots[0], Levels(a)) + Levels(a) * (PageTotal(segs) + STACK_PAGES) <= Avail(y.s)
  }

  lemma CreatedReady(a: Arch, y: Sys, id: nat, segs: seq<Segment>)
    requires LaunchReady(a, y, id, segs)
    ensures var y1 := Exec(a, y, Create(id));
            && PageTheorems.Visiting(a, y, y1, id) && id in y1.roots && id != 0 && Inv(a, y1)
            && ImageReady(a, y1.s, y1.roots[id], segs) && OthersKept(a, y, y1, id)
  {
    hide Foot, Tree, Walk, Clone, SpaceOk, Tables, Avail, Levels, Stops, SegmentOk, InStack, SpaceReady, Covered, Footprint,
      SpaceKept;
    var y1 := Exec(a, y, Create(id));
    Split(Levels(a), PageTotal(segs), STACK_PAGES);
    StepCreate(a, y, id);
    PageTheorems.VisitCreate(a, y, id);
    ReadyIn(a, y1, id);
  }

  /** The system once process_run has loaded the image into the new space id. */
  ghost function Launched(a: Arch, y: Sys, id: nat, segs: seq<Segment>, file: seq<Byte>): Sys {
    var y1 := Exec(a, y, Create(id));
    if id in y1.roots then At(a, y1, LoadImage(a, y1.s, y1.roots[id], segs, file)) else y1
  }

  lemma StillKept(a: Arch, y: Sys, y1: Sys, z: Sys, id: nat, n: nat)
    requires OthersKept(a, y, y1, id) && Loading(a, y1, z, id, n)
    ensures OthersKept(a, y, z, id)
  {
    hide Inv, SpaceKept;
    forall other | other != id && other in y.roots
      ensures SpaceKept(a, y.s.mem, z.s.mem, y.roots[other])
    {
      PageTheorems.KeptTwice(a, y.s.mem, y1.s.mem, z.s.mem, y.roots[other]);
    }
  }

  lemma StillUnwritten(a: Arch, y: Sys, y1: Sys, t: Phys, id: nat, P: set<nat>)
    requires PageTheorems.Visiting(a, y, y1, id) && Kept(a, y1.s, t, y1.roots[id], P)
    ensures Agree(y.s.mem, t.mem, y.s.used) && y.s.used <= y1.s.used
  {
    hide Inv, Footprint, Look, SpaceReady;
  }

  lemma LoadedSince(a: Arch, s0: Phys, s1: Phys, t: Phys, root: nat, segs: seq<Segment>, file: seq<Byte>)
    requires ImageLoaded(a, s1, t, root, segs, file) && s0.used <= s1.used
    ensures ImageLoaded(a, s0, t, root, segs, file)
  {
    hide Holds, Covered, LastOver;
    forall u | Covered(segs, u)
      ensures Holds(a, s0, t, root, file, u, LastOver(segs, u))
    {
      HoldsSince(a, s0, s1, t, root, file, u, LastOver(segs, u));
    }
  }

  lemma ElsewhereAsKernel(a: Arch, y: Sys, id: nat, t: Phys, P: set<nat>)
    requires Inv(a, y) && Enabled(a, y, Create(id))
    requires var y1 := Exec(a, y, Create(id)); id in y1.roots && Kept(a, y1.s, t, y1.roots[id], P)
    ensures forall u :: PageOf(a, u) !in P ==>
              Look(a, t.mem, Exec(a, y, Create(id)).roots[id], u) == Look(a, y.s.mem, y.roots[0], u)
  {
    hide Inv, Footprint, Look, SpaceReady, Tables, Clone, PageOf;
    StepCreate(a, y, id);
  }

  lemma LaunchEnables(a: Arch, y: Sys, id: nat, segs: seq<Segment>)
    requires LaunchReady(a, y, id, segs)
    ensures 0 in y.roots && Enabled(a, y, Create(id)) && Inv(a, y)
  {
    hide SpaceOk, Footprint, Sane, Tables, Avail, Levels, Look, Covered, InStack, Stops, SegmentOk;
    Split(Levels(a), PageTotal(segs) + STACK_PAGES, 0);
  }

  /** Loading into any space of any reachable state, with heap blocks allocated or whatever else since its
      creation: the invariant and the other spaces are kept, no frame in use but the space's tables is written,
      and the image is right exactly as in ImageCorrectIff. */
  lemma LoadFacts(a: Arch, y1: Sys, id: nat, segs: seq<Segment>, file: seq<Byte>)
    requires id in y1.roots && ImageReady(a, y1.s, y1.roots[id], segs) && Inv(a, y1)
    ensures var root := y1.roots[id];
            var z := At(a, y1, LoadImage(a, y1.s, root, segs, file));
            && Loading(a, y1, z, id, PageTotal(segs) + STACK_PAGES) && z.roots == y1.roots && Inv(a, z)
            && Kept(a, y1.s, z.s, root, AllPages(a, segs))
            && ImageLoaded(a, y1.s, z.s, root, segs, file) && PagesApart(a, z.s, root, segs)
            && StackMapped(a, y1.s, z.s, root, StackTop(a)) && StackApart(a, z.s, root, segs)
            && (ImageCorrect(a, z.s, root, segs, file) <==> NothingLost(a, segs, file))
  {
    hide Inv, ImageReady, LoadImage, At, Loading, ImageLoaded, PagesApart, StackMapped, StackApart, ImageCorrect, NothingLost,
      AllPages, Kept, PageTotal;
    var root := y1.roots[id];
    ImageLoading(a, y1, id, segs, file);
    LoadImageFacts(a, y1.s, root, segs, file);
    ImageCorrectIff(a, y1.s, root, segs, file);
    var t := LoadImage(a, y1.s, root, segs, file);
    AtState(a, y1, t);
    LoadingInv(a, y1, At(a, y1, t), id, PageTotal(segs) + STACK_PAGES);
    SoundHeaders(a, y1.s, root, segs);
  }

  lemma SoundHeaders(a: Arch, s: Phys, root: nat, segs: seq<Segment>)
    requires ImageReady(a, s, root, segs)
    ensures forall seg :: seg in segs ==> SegmentOk(a, seg)
  {
    hide SegmentOk, SpaceReady, Covered, InStack, Stops, Look;
  }

  /** Launching a process keeps every other space, the kernel's among them, and writes no frame that was in
      use; its image is what the program headers promise unless segments clobber each other's pages. */
  lemma LaunchFacts(a: Arch, y: Sys, id: nat, segs: seq<Segment>, file: seq<Byte>)
    requires LaunchReady(a, y, id, segs)
    ensures var z := Launched(a, y, id, segs, file);
            && Loading(a, Exec(a, y, Create(id)), z, id, PageTotal(segs) + STACK_PAGES)
            && Inv(a, z) && id in z.roots && OthersKept(a, y, z, id) && Agree(y.s.mem, z.s.mem, y.s.used)
            && ImageLoaded(a, y.s, z.s, z.roots[id], segs, file) && PagesApart(a, z.s, z.roots[id], segs)
            && StackMapped(a, y.s, z.s, z.roots[id], StackTop(a)) && StackApart(a, z.s, z.roots[id], segs)
            && (ImageCorrect(a, z.s, z.roots[id], segs, file) <==> NothingLost(a, segs, file))
            && (forall u :: PageOf(a, u) !in AllPages(a, segs) ==>
                  Look(a, z.s.mem, z.roots[id], u) == Look(a, y.s.mem, y.roots[0], u))
  {
    hide Inv, ImageReady, LoadImage, At, Loading, OthersKept, Look, ImageLoaded, PagesApart, StackMapped, StackApart,
      ImageCorrect, NothingLost, PageOf, AllPages, Kept, PageTotal, Agree, LaunchReady, Exec;
    CreatedReady(a, y, id, segs);
    var y1 := Exec(a, y, Create(id));
    var root := y1.roots[id];
    LoadFacts(a, y1, id, segs, file);
    var t := LoadImage(a, y1.s, root, segs, file);
    var z := Launched(a, y, id, segs, file);
    AtState(a, y1, t);
    StillKept(a, y, y1, z, id, PageTotal(segs) + STACK_PAGES);
    StillUnwritten(a, y, y1, t, id, AllPages(a, segs));
    LoadedSince(a, y.s, y1.s, t, root, segs, file);
    StackSince(a, y.s, y1.s, t, root);
    LaunchEnables(a, y, id, segs);
    ElsewhereAsKernel(a, y, id, t, AllPages(a, segs));
  }

  lemma Destroyed(a: Arch, y: Sys, y1: Sys, z: Sys, id: nat, n: nat)
    requires PageTheorems.Visiting(a, y, y1, id) && Loading(a, y1, z, id, n) && id != 0
    ensures var w := Exec(a, z, Destroy(id));
            w.roots == y.roots && id !in y.roots && w.held == z.held && y1.held == y.held
  {
    hide Inv, SpaceKept, Footprint, Agree;
  }

  /** However the process used its own frames meanwhile, finishing it returns every page table, keeps every
      other space, and leaves behind exactly the n data frames of its pages: process_run reclaims none. */
  lemma FinishFacts(a: Arch, y: Sys, id: nat, z: Sys, n: nat)
    requires 0 in y.roots && Enabled(a, y, Create(id)) && Loading(a, Exec(a, y, Create(id)), z, id, n) && Inv(a, y)
    ensures var w := Exec(a, z, Destroy(id));
            && w.roots == y.roots && OthersKept(a, y, w, id)
            && y.held <= w.held && |w.held| == |y.held| + n
            && w.s.used == y.s.used + (w.held - y.held) && y.s.used !! (w.held - y.held) && Inv(a, w)
  {
    hide Inv, Footprint, SpaceKept, Exec, Enabled, OthersKept, Owned;
    var y1 := Exec(a, y, Create(id));
    PageTheorems.VisitCreate(a, y, id);
    LoadingInv(a, y1, z, id, n);
    StepCreate(a, y, id);
    StillKept(a, y, y1, z, id, n);
    StepDestroy(a, z, id);
    var w := Exec(a, z, Destroy(id));
    Destroyed(a, y, y1, z, id, n);
    PageTheorems.BothKept(a, y, z, w, id);
    PageTheorems.OwnedSame(a, y, w, id);
    PageTheorems.HeldApart(a, y);
    PageTheorems.HeldApart(a, w);
  }
}

/** clone_table_level and free_table_level: a clone walks like its source out of fresh tables only,
    and freeing a tree gives back exactly its tables. */
module PageClone {
  import opened Pmm
  import opened PageTable
  import opened PageTree
  import opened PageOps

  /** Walking v from g in n ends at the same leaf word, with the same rights, as from f in m. */
  ghost predicate SameWalk(a: Arch, m: Memory, f: nat, n: Memory, g: nat, d: Depth, v: U64Value) {
    && Walk(a, n, g, d, v) == Walk(a, m, f, d, v)
    && (a == X86 ==> GrantsWrite(a, n, g, d, v) == GrantsWrite(a, m, f, d, v)
                     && GrantsUser(a, n, g, d, v) == GrantsUser(a, m, f, d, v))
  }

  lemma {:induction false} FrameTables(a: Arch, m: Memory, n: Memory, f: nat, d: Depth, i: nat)
    requires Tree(a, m, f, d) && Agree(m, n, Foot(a, m, f, d)) && i <= 512
    ensures TablesFrom(a, n, f, d, i) == TablesFrom(a, m, f, d, i)
    decreases d, 512 - i
  {
    hide Foot, KidFoot, IsTable, FrameOf;
    if i < 512 {
      FootParts(a, m, f, d, i);
      if HasKid(a, m, f, d, i) {
        FrameTables(a, m, n, Kid(a, m, f, i), d - 1, 0);
      }
      FrameTables(a, m, n, f, d, i + 1);
    }
  }

  lemma GrownTwice(a: Arch, s: Phys, t: Phys, u: Phys, f: nat, d: Depth)
    requires Grown(a, s, t, f, d) && Grown(a, t, u, f, d) && Foot(a, s.mem, f, d) <= s.used
    ensures Grown(a, s, u, f, d)
  {
  }

  /** What clone_table_level needs at turn i: the copied prefix is already a tree of its own. */
  ghost predicate CloneReady(a: Arch, s: Phys, src: nat, dst: nat, d: Depth, i: nat) {
    && i <= 512 && Sane(s)
    && Tree(a, s.mem, src, d) && Foot(a, s.mem, src, d) <= s.used
    && Tree(a, s.mem, dst, d) && Foot(a, s.mem, dst, d) <= s.used
    && Foot(a, s.mem, dst, d) !! Foot(a, s.mem, src, d)
    && (forall j: nat :: i <= j < 512 ==> Get(s.mem, dst, j) == NIL)
    && TablesFrom(a, s.mem, src, d, i) <= Avail(s)
  }

  /** The result of a whole clone: fresh tables only, one per source table, and every walk preserved. */
  ghost predicate Cloned(a: Arch, s: Phys, src: nat, t: Phys, g: nat, d: Depth) {
    && |t.mem| == |s.mem| && Sane(t) && s.used <= t.used
    && Tree(a, t.mem, g, d) && Foot(a, t.mem, g, d) == t.used - s.used
    && (forall x: nat :: x < |s.mem| && x !in t.used - s.used ==> t.mem[x] == s.mem[x])
    && Avail(t) == Avail(s) - Tables(a, s.mem, src, d)
    && (forall v :: SameWalk(a, s.mem, src, t.mem, g, d, v))
  }

  /** The entries of dst other than i, and everything they lead to, are the same in t as in s. */
  ghost predicate OnlySlot(a: Arch, s: Phys, t: Phys, dst: nat, d: Depth, i: nat) {
    && Grown(a, s, t, dst, d)
    && (forall j: nat :: j != i ==> Get(t.mem, dst, j) == Get(s.mem, dst, j))
    && Agree(s.mem, t.mem, Foot(a, s.mem, dst, d) - {dst} - KidFoot(a, s.mem, dst, d, i))
  }

  /** One turn of the loop hangs a clone of entry i's subtree under dst, and leaves the other entries alone. */
  lemma SlotTable(a: Arch, s: Phys, src: nat, dst: nat, d: Depth, i: nat, s1: Phys, c: nat)
    requires i < 512 && CloneReady(a, s, src, dst, d, i) && HasKid(a, s.mem, src, d, i) && c < 0x10_0000_0000
    requires Cloned(a, s, Kid(a, s.mem, src, i), s1, c, d - 1)
    ensures var t := s1.(mem := Put(s1.mem, dst, i, CloneEntry(a, c, Get(s.mem, src, i))));
            && OnlySlot(a, s, t, dst, d, i)
            && HasKid(a, t.mem, dst, d, i) && Kid(a, t.mem, dst, i) == c
            && Agree(s1.mem, t.mem, Foot(a, s1.mem, c, d - 1)) && Tree(a, s1.mem, c, d - 1)
            && Get(t.mem, dst, i) == CloneEntry(a, c, Get(s.mem, src, i))
  {
    hide Present, IsTable, Blocked, CloneEntry, Foot, KidFoot, Tree, Tables, Avail;
    var e := CloneEntry(a, c, Get(s.mem, src, i));
    var t := s1.(mem := Put(s1.mem, dst, i, e));
    NilFacts(a);
    FootParts(a, s.mem, dst, d, i);
    CloneEntryFacts(a, c, Get(s.mem, src, i));
    assert Get(t.mem, dst, i) == e && HasKid(a, t.mem, dst, d, i) && Kid(a, t.mem, dst, i) == c;
    Frame(a, s1.mem, t.mem, c, d - 1);
    FootParts(a, t.mem, dst, d, i);
    FootInRange(a, s.mem, dst, d);
    Graft(a, s.mem, t.mem, dst, d, i);
  }

  lemma SlotTableWalk(a: Arch, s: Phys, src: nat, dst: nat, d: Depth, i: nat, s1: Phys, c: nat, v: U64Value)
    requires i < 512 && CloneReady(a, s, src, dst, d, i) && HasKid(a, s.mem, src, d, i) && c < 0x10_0000_0000
    requires Cloned(a, s, Kid(a, s.mem, src, i), s1, c, d - 1)
    ensures var t := s1.(mem := Put(s1.mem, dst, i, CloneEntry(a, c, Get(s.mem, src, i))));
            if Index(v, d) == i then SameWalk(a, s.mem, src, t.mem, dst, d, v)
            else SameWalk(a, s.mem, dst, t.mem, dst, d, v)
  {
    hide Present, IsTable, Blocked, CloneEntry, Foot, KidFoot, Tree, Index, Put, Tables, Avail, Free;
    var t := s1.(mem := Put(s1.mem, dst, i, CloneEntry(a, c, Get(s.mem, src, i))));
    SlotTable(a, s, src, dst, d, i, s1, c);
    CloneEntryFacts(a, c, Get(s.mem, src, i));
    assert SameWalk(a, s.mem, Kid(a, s.mem, src, i), s1.mem, c, d - 1, v);
    StepWalk(a, s.mem, t.mem, dst, d, i, c, v);
    FrameWalk(a, s1.mem, t.mem, c, d - 1, v);
  }

  lemma SlotLeaf(a: Arch, s: Phys, src: nat, dst: nat, d: Depth, i: nat)
    requires i < 512 && CloneReady(a, s, src, dst, d, i) && !HasKid(a, s.mem, src, d, i)
    ensures var t := CloneSlot(a, s, src, dst, d, i);
            && OnlySlot(a, s, t, dst, d, i) && t.used == s.used
            && !HasKid(a, t.mem, dst, d, i)
            && (Get(t.mem, dst, i) == Get(s.mem, src, i)
                || (!Present(Get(t.mem, dst, i)) && !Present(Get(s.mem, src, i))))
  {
    hide Foot, KidFoot, Tree, Clone, Tables, Avail;
    var t := CloneSlot(a, s, src, dst, d, i);
    NilFacts(a);
    FootParts(a, s.mem, dst, d, i);
    FootParts(a, t.mem, dst, d, i);
    FootInRange(a, s.mem, dst, d);
    if d > 1 {
      Graft(a, s.mem, t.mem, dst, d, i);
    } else {
      LeafTable(a, s.mem, dst);
      LeafTable(a, t.mem, dst);
    }
  }

  lemma SlotLeafWalk(a: Arch, s: Phys, src: nat, dst: nat, d: Depth, i: nat, v: U64Value)
    requires i < 512 && CloneReady(a, s, src, dst, d, i) && !HasKid(a, s.mem, src, d, i)
    ensures var t := CloneSlot(a, s, src, dst, d, i);
            if Index(v, d) == i then SameWalk(a, s.mem, src, t.mem, dst, d, v)
            else SameWalk(a, s.mem, dst, t.mem, dst, d, v)
  {
    hide CloneSlot, Foot, KidFoot, Tree, Index, Tables, Avail, Free, Clone;
    var t := CloneSlot(a, s, src, dst, d, i);
    SlotLeaf(a, s, src, dst, d, i);
    if d > 1 && Index(v, d) != i {
      GraftWalk(a, s.mem, t.mem, dst, d, i, v);
    }
  }

  /** One turn of the loop, whatever entry i of the source is. */
  ghost predicate SlotDone(a: Arch, s: Phys, t: Phys, src: nat, dst: nat, d: Depth, i: nat)
    requires i < 512
  {
    && OnlySlot(a, s, t, dst, d, i)
    && Avail(t) == Avail(s) - (TablesFrom(a, s.mem, src, d, i) - TablesFrom(a, s.mem, src, d, i + 1))
    && forall v :: if Index(v, d) == i then SameWalk(a, s.mem, src, t.mem, dst, d, v)
                   else SameWalk(a, s.mem, dst, t.mem, dst, d, v)
  }

  lemma {:induction false} SlotFacts(a: Arch, s: Phys, src: nat, dst: nat, d: Depth, i: nat)
    requires i < 512 && CloneReady(a, s, src, dst, d, i)
    ensures SlotDone(a, s, CloneSlot(a, s, src, dst, d, i), src, dst, d, i)
    decreases d, 512 - i, 0
  {
    hide Foot, KidFoot, Tree, Index, Clone, SameWalk, Free;
    var t := CloneSlot(a, s, src, dst, d, i);
    if HasKid(a, s.mem, src, d, i) {
      var k := Kid(a, s.mem, src, i);
      FootParts(a, s.mem, src, d, i);
      CloneFacts(a, s, k, d - 1);
      var (s1, c) := Clone(a, s, k, d - 1);
      SlotTable(a, s, src, dst, d, i, s1, c);
      TableNotBlocked(a, Get(s.mem, src, i));
      forall v
        ensures if Index(v, d) == i then SameWalk(a, s.mem, src, t.mem, dst, d, v)
                else SameWalk(a, s.mem, dst, t.mem, dst, d, v)
      {
        SlotTableWalk(a, s, src, dst, d, i, s1, c, v);
      }
    } else {
      SlotLeaf(a, s, src, dst, d, i);
      forall v
        ensures if Index(v, d) == i then SameWalk(a, s.mem, src, t.mem, dst, d, v)
                else SameWalk(a, s.mem, dst, t.mem, dst, d, v)
      {
        SlotLeafWalk(a, s, src, dst, d, i, v);
      }
    }
  }

  /** The rest of the loop: entries from i on come to walk like the source, those before i stay. */
  lemma {:induction false} CloneFromFacts(a: Arch, s: Phys, src: nat, dst: nat, d: Depth, i: nat)
    requires CloneReady(a, s, src, dst, d, i)
    ensures var t := CloneFrom(a, s, src, dst, d, i);
            && Grown(a, s, t, dst, d) && Avail(t) == Avail(s) - TablesFrom(a, s.mem, src, d, i)
            && forall v :: if Index(v, d) >= i then SameWalk(a, s.mem, src, t.mem, dst, d, v)
                           else SameWalk(a, s.mem, dst, t.mem, dst, d, v)
    decreases d, 512 - i
  {
    hide Foot, KidFoot, Tree, Walk, GrantsWrite, GrantsUser, Free, CloneSlot;
    if i < 512 {
      SlotFacts(a, s, src, dst, d, i);
      var s1 := CloneSlot(a, s, src, dst, d, i);
      Frame(a, s.mem, s1.mem, src, d);
      FrameTables(a, s.mem, s1.mem, src, d, i + 1);
      CloneFromFacts(a, s1, src, dst, d, i + 1);
      var t := CloneFrom(a, s1, src, dst, d, i + 1);
      GrownTwice(a, s, s1, t, dst, d);
      forall v
        ensures if Index(v, d) >= i then SameWalk(a, s.mem, src, t.mem, dst, d, v)
                else SameWalk(a, s.mem, dst, t.mem, dst, d, v)
      {
        FrameWalk(a, s.mem, s1.mem, src, d, v);
      }
    }
  }

  /** clone_table_level: for every address the clone reaches the leaf word the source reaches, with the
      same rights, out of exactly as many fresh frames as the source has tables; nothing else is written. */
  lemma {:induction false} CloneFacts(a: Arch, s: Phys, src: nat, d: Depth)
    requires Sane(s) && Tree(a, s.mem, src, d) && Foot(a, s.mem, src, d) <= s.used
    requires Tables(a, s.mem, src, d) <= Avail(s)
    ensures var (t, g) := Clone(a, s, src, d);
            g !in s.used && g in t.used && Cloned(a, s, src, t, g, d)
    decreases d, 513
  {
    hide Foot, KidFoot, Tree, Walk, GrantsWrite, GrantsUser, Free, TablesFrom, CloneFrom, AllocFrame;
    AllocFacts(s);
    var (s0, g) := AllocFrame(s);
    var s1 := s0.(mem := Clear(s0.mem, g));
    ZeroTree(a, s1.mem, g, d);
    Frame(a, s.mem, s1.mem, src, d);
    FrameTables(a, s.mem, s1.mem, src, d, 0);
    CloneFromFacts(a, s1, src, g, d, 0);
    var t := CloneFrom(a, s1, src, g, d, 0);
    forall v
      ensures SameWalk(a, s.mem, src, t.mem, g, d, v)
    {
      FrameWalk(a, s.mem, s1.mem, src, d, v);
      assert Index(v, d) >= 0;
    }
  }

  // ---------------------------------------------------------------- free_table_level

  /** The frames hanging from entries i, i+1, ... of f. */
  ghost function FootFrom(a: Arch, m: Memory, f: nat, d: Depth, i: nat): set<nat> {
    set j: nat, x | i <= j < 512 && x in KidFoot(a, m, f, d, j) :: x
  }

  lemma FootFromStep(a: Arch, m: Memory, f: nat, d: Depth, i: nat)
    requires i < 512
    ensures FootFrom(a, m, f, d, i) == KidFoot(a, m, f, d, i) + FootFrom(a, m, f, d, i + 1)
    ensures Foot(a, m, f, d) == {f} + FootFrom(a, m, f, d, 0)
    ensures Tree(a, m, f, d) ==> KidFoot(a, m, f, d, i) !! FootFrom(a, m, f, d, i + 1) && f !in FootFrom(a, m, f, d, 0)
  {
  }

  /** free_table_level frees exactly the tables of the tree; in particular no leaf's data frame. */
  lemma {:induction false} ReleaseFacts(a: Arch, m: Memory, used: set<nat>, f: nat, d: Depth)
    ensures Release(a, m, used, f, d) == used - Foot(a, m, f, d)
    decreases d, 513
  {
    FootFromStep(a, m, f, d, 0);
    if d > 1 {
      ReleaseFromFacts(a, m, used, f, d, 0);
    } else {
      LeafTable(a, m, f);
    }
  }

  lemma {:induction false} ReleaseFromFacts(a: Arch, m: Memory, used: set<nat>, f: nat, d: Depth, i: nat)
    requires d > 1 && i <= 512
    ensures ReleaseFrom(a, m, used, f, d, i) == used - FootFrom(a, m, f, d, i)
    decreases d, 512 - i
  {
    hide Foot, IsTable, FrameOf;
    if i < 512 {
      FootParts(a, m, f, d, i);
      FootFromStep(a, m, f, d, i);
      if HasKid(a, m, f, d, i) {
        ReleaseFacts(a, m, used, Kid(a, m, f, i), d - 1);
        ReleaseFromFacts(a, m, used - KidFoot(a, m, f, d, i), f, d, i + 1);
      } else {
        ReleaseFromFacts(a, m, used, f, d, i + 1);
      }
    }
  }

  /** Counting tables entry by entry counts the frames of the footprint. */
  lemma {:induction false} TablesIsSize(a: Arch, m: Memory, f: nat, d: Depth)
    requires Tree(a, m, f, d)
    ensures |Foot(a, m, f, d)| == Tables(a, m, f, d)
    decreases d, 513
  {
    FootFromStep(a, m, f, d, 0);
    TablesFromIsSize(a, m, f, d, 0);
  }

  lemma {:induction false} TablesFromIsSize(a: Arch, m: Memory, f: nat, d: Depth, i: nat)
    requires Tree(a, m, f, d) && i <= 512
    ensures |FootFrom(a, m, f, d, i)| == TablesFrom(a, m, f, d, i)
    decreases d, 512 - i
  {
    hide Foot, KidFoot, IsTable, FrameOf;
    if i < 512 {
      FootParts(a, m, f, d, i);
      FootFromStep(a, m, f, d, i);
      if HasKid(a, m, f, d, i) {
        TablesIsSize(a, m, Kid(a, m, f, i), d - 1);
      }
      TablesFromIsSize(a, m, f, d, i + 1);
    } else {
      assert FootFrom(a, m, f, d, i) == {};
    }
  }

  // ---------------------------------------------------------------- frames are only taken

  /** With frames enough or not, cloning gives no frame back. */
  lemma {:induction false} CloneTakes(a: Arch, s: Phys, src: nat, d: Depth)
    ensures s.used <= Clone(a, s, src, d).0.used
    decreases d, 513
  {
    hide CloneFrom, FirstRun;
    var (s1, g) := AllocFrame(s);
    CloneFromTakes(a, s1.(mem := Clear(s1.mem, g)), src, g, d, 0);
  }

  lemma {:induction false} CloneFromTakes(a: Arch, s: Phys, src: nat, dst: nat, d: Depth, i: nat)
    requires i <= 512
    ensures s.used <= CloneFrom(a, s, src, dst, d, i).used
    decreases d, 512 - i
  {
    hide Clone, IsTable, Present, FrameOf, CloneEntry;
    if i < 512 {
      var w := Get(s.mem, src, i);
      if d > 1 && IsTable(a, w) {
        CloneTakes(a, s, FrameOf(a, w), d - 1);
      }
      CloneFromTakes(a, CloneSlot(a, s, src, dst, d, i), src, dst, d, i + 1);
    }
  }
}

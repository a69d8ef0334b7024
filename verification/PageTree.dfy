/** Ownership and framing of page-table trees, proved once for both architectures and every depth. */
module PageTree {
  import opened Pmm
  import opened PageTable

  /** The two memories agree on every frame of F. */
  ghost predicate Agree(m: Memory, n: Memory, F: set<nat>) {
    |n| == |m| && forall x: nat :: x in F && x < |m| ==> n[x] == m[x]
  }

  /** The shape of a footprint, for proofs that hide its definition. */
  lemma FootParts(a: Arch, m: Memory, f: nat, d: Depth, i: nat)
    requires i < 512
    ensures f in Foot(a, m, f, d) && KidFoot(a, m, f, d, i) <= Foot(a, m, f, d)
    ensures KidFoot(a, m, f, d, i) == if HasKid(a, m, f, d, i) then Foot(a, m, Kid(a, m, f, i), d - 1) else {}
    ensures Tree(a, m, f, d) ==> 0 < f < |m| && f !in KidFoot(a, m, f, d, i)
    ensures Tree(a, m, f, d) && HasKid(a, m, f, d, i) ==> Tree(a, m, Kid(a, m, f, i), d - 1)
  {
  }

  lemma LeafTable(a: Arch, m: Memory, f: nat)
    ensures Foot(a, m, f, 1) == {f} && (0 < f < |m| ==> Tree(a, m, f, 1))
  {
    assert forall j: nat :: KidFoot(a, m, f, 1, j) == {};
  }

  lemma KidFootIn(a: Arch, m: Memory, f: nat, d: Depth, i: nat)
    ensures KidFoot(a, m, f, d, i) <= Foot(a, m, f, d)
  {
  }

  lemma {:induction false} FootInRange(a: Arch, m: Memory, f: nat, d: Depth)
    requires Tree(a, m, f, d)
    ensures forall x: nat :: x in Foot(a, m, f, d) ==> 0 < x < |m|
    decreases d
  {
    forall x: nat | x in Foot(a, m, f, d)
      ensures 0 < x < |m|
    {
      if x != f {
        var i: nat :| i < 512 && x in KidFoot(a, m, f, d, i);
        assert x in Foot(a, m, Kid(a, m, f, i), d - 1);
        FootInRange(a, m, Kid(a, m, f, i), d - 1);
      }
    }
  }

  /** A tree, its walks and its rights depend on nothing but its own frames. */
  lemma {:induction false} Frame(a: Arch, m: Memory, n: Memory, f: nat, d: Depth)
    requires Tree(a, m, f, d) && Agree(m, n, Foot(a, m, f, d))
    ensures Tree(a, n, f, d) && Foot(a, n, f, d) == Foot(a, m, f, d)
    decreases d
  {
    assert forall i: nat :: Get(n, f, i) == Get(m, f, i);
    forall i: nat
      ensures KidFoot(a, n, f, d, i) == KidFoot(a, m, f, d, i)
      ensures HasKid(a, n, f, d, i) ==> Tree(a, n, Kid(a, n, f, i), d - 1)
    {
      if HasKid(a, m, f, d, i) {
        KidFootIn(a, m, f, d, i);
        Frame(a, m, n, Kid(a, m, f, i), d - 1);
      }
    }
  }

  lemma {:induction false} FrameWalk(a: Arch, m: Memory, n: Memory, f: nat, d: Depth, v: U64Value)
    requires Tree(a, m, f, d) && Agree(m, n, Foot(a, m, f, d))
    ensures Walk(a, n, f, d, v) == Walk(a, m, f, d, v)
    ensures GrantsWrite(a, n, f, d, v) == GrantsWrite(a, m, f, d, v)
    ensures GrantsUser(a, n, f, d, v) == GrantsUser(a, m, f, d, v)
    ensures Missing(a, n, f, d, v) == Missing(a, m, f, d, v)
    decreases d
  {
    var i := Index(v, d);
    assert n[f] == m[f];
    if HasKid(a, m, f, d, i) {
      KidFootIn(a, m, f, d, i);
      FrameWalk(a, m, n, Kid(a, m, f, i), d - 1, v);
    }
  }

  /** An all-zero table is a tree of one frame on which every walk misses. */
  lemma ZeroTree(a: Arch, m: Memory, g: nat, d: Depth)
    requires 0 < g < |m| && m[g] == Zeros()
    ensures Tree(a, m, g, d) && Foot(a, m, g, d) == {g}
    ensures forall v :: Walk(a, m, g, d, v) == Miss && Missing(a, m, g, d, v) == d - 1
    ensures forall v :: GrantsWrite(a, m, g, d, v) && GrantsUser(a, m, g, d, v)
  {
    NilFacts(a);
    assert forall i: nat :: Get(m, g, i) == NIL;
    assert forall i: nat :: KidFoot(a, m, g, d, i) == {};
  }

  /** Replacing entry i of f, with whatever tree the new entry leads to, keeps f a tree, as long as
      the new subtree reuses only the old subtree's frames or frames that were not f's before. */
  lemma Graft(a: Arch, m: Memory, n: Memory, f: nat, d: Depth, i: nat)
    requires d > 1 && i < 512 && Tree(a, m, f, d)
    requires Agree(m, n, Foot(a, m, f, d) - {f} - KidFoot(a, m, f, d, i))
    requires forall j: nat :: j != i ==> Get(n, f, j) == Get(m, f, j)
    requires Present(Get(n, f, i)) || !Blocked(a, Get(n, f, i))
    requires HasKid(a, n, f, d, i) ==> Tree(a, n, Kid(a, n, f, i), d - 1)
    requires KidFoot(a, n, f, d, i) !! Foot(a, m, f, d) - KidFoot(a, m, f, d, i)
    ensures Tree(a, n, f, d)
    ensures Foot(a, n, f, d) == Foot(a, m, f, d) - KidFoot(a, m, f, d, i) + KidFoot(a, n, f, d, i)
    ensures forall j: nat :: j != i ==> KidFoot(a, n, f, d, j) == KidFoot(a, m, f, d, j)
  {
    forall j: nat | j != i
      ensures KidFoot(a, n, f, d, j) == KidFoot(a, m, f, d, j)
      ensures HasKid(a, n, f, d, j) ==> Tree(a, n, Kid(a, n, f, j), d - 1)
    {
      if HasKid(a, m, f, d, j) {
        KidFootIn(a, m, f, d, j);
        Frame(a, m, n, Kid(a, m, f, j), d - 1);
      }
    }
  }

  /** The walks that take another entry of f do not notice the graft. */
  lemma GraftWalk(a: Arch, m: Memory, n: Memory, f: nat, d: Depth, i: nat, v: U64Value)
    requires d > 1 && i < 512 && Tree(a, m, f, d) && Index(v, d) != i
    requires Agree(m, n, Foot(a, m, f, d) - {f} - KidFoot(a, m, f, d, i))
    requires forall j: nat :: j != i ==> Get(n, f, j) == Get(m, f, j)
    ensures Walk(a, n, f, d, v) == Walk(a, m, f, d, v)
    ensures GrantsWrite(a, n, f, d, v) == GrantsWrite(a, m, f, d, v)
    ensures GrantsUser(a, n, f, d, v) == GrantsUser(a, m, f, d, v)
  {
    var j := Index(v, d);
    if HasKid(a, m, f, d, j) {
      KidFootIn(a, m, f, d, j);
      FrameWalk(a, m, n, Kid(a, m, f, j), d - 1, v);
    }
  }
}

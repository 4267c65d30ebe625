/** The incremental Merkle tree (crates/attesta-core/src/merkle.rs).

    The tree is specified by `SubtreeRoot`, the root of the padded subtree over
    a window of the leaves. The class below caches every level and is proved to
    agree with it after every append, at every size, also past its capacity.
  */
module Hashing {
  /** A 32-byte hash value. Nothing below looks inside it. */
  type Node(==, !new)

  /** The `TreeHasher` trait: any two-argument hash and any empty-leaf value. */
  datatype Hasher = Hasher(pair: (Node, Node) -> Node, emptyLeaf: Node)

  /** Two inputs of `pair`, `(a, b)` and `(c, d)`. */
  datatype HashInputs = HashInputs(a: Node, b: Node, c: Node, d: Node)

  /** The two inputs differ and hash to the same node. */
  ghost predicate IsCollision(h: Hasher, x: HashInputs) {
    (x.a, x.b) != (x.c, x.d) && h.pair(x.a, x.b) == h.pair(x.c, x.d)
  }
}

/** Halving an index or a length level by level, without powers of two. */
module Halving {
  /** The ancestor of position `i`, `d` levels up. */
  function Shift(i: nat, d: nat): nat {
    if d == 0 then i else Shift(i, d - 1) / 2
  }

  /** How many nodes cover `n` leaves, `d` levels up. */
  function Width(n: nat, d: nat): nat {
    if d == 0 then n else (Width(n, d - 1) + 1) / 2
  }

  function Pow2(d: nat): (p: nat)
    ensures p >= 1
  {
    if d == 0 then 1 else 2 * Pow2(d - 1)
  }

  /** Appending at position `n` makes `n`'s ancestor the last node of every level. */
  lemma {:induction false} WidthAfterAppend(n: nat, d: nat)
    ensures Width(n + 1, d) == Shift(n, d) + 1
    ensures Shift(n, d) <= Width(n, d) <= Shift(n, d) + 1
  {
    if d != 0 { WidthAfterAppend(n, d - 1); }
  }

  lemma {:induction false} ShiftIsDivision(i: nat, d: nat)
    ensures Shift(i, d) * Pow2(d) <= i < (Shift(i, d) + 1) * Pow2(d)
  {
    if d != 0 {
      ShiftIsDivision(i, d - 1);
      HalvingStep(i, Shift(i, d - 1), Pow2(d - 1));
    }
  }

  lemma HalvingStep(i: nat, s: nat, p: nat)
    requires s * p <= i < (s + 1) * p
    ensures (s / 2) * (2 * p) <= i < (s / 2 + 1) * (2 * p)
  {
    MulMonotone(2 * (s / 2), s, p);
    MulMonotone(s + 1, 2 * (s / 2) + 2, p);
  }

  lemma MulMonotone(a: nat, b: nat, p: nat)
    requires a <= b
    ensures a * p <= b * p
  {}

  lemma ShiftIsZero(i: nat, d: nat)
    ensures Shift(i, d) == 0 <==> i < Pow2(d)
  {
    ShiftIsDivision(i, d);
    if Shift(i, d) != 0 { MulMonotone(1, Shift(i, d), Pow2(d)); }
  }

  /** `Width` is the length rounded up to whole windows of `2^d` leaves. */
  lemma {:induction false} WidthIsCeiling(n: nat, d: nat)
    ensures n <= Width(n, d) * Pow2(d) < n + Pow2(d)
  {
    if n == 0 {
      WidthOfZero(d);
    } else {
      WidthAfterAppend(n - 1, d);
      ShiftIsDivision(n - 1, d);
      assert (Shift(n - 1, d) + 1) * Pow2(d) == Shift(n - 1, d) * Pow2(d) + Pow2(d);
    }
  }

  lemma {:induction false} WidthOfZero(d: nat)
    ensures Width(0, d) == 0
  {
    if d != 0 { WidthOfZero(d - 1); }
  }
}

module MerkleSpec {
  import opened Hashing
  import opened Halving

  /** Root of an all-empty subtree of height `d`. */
  function Zero(h: Hasher, d: nat): Node {
    if d == 0 then h.emptyLeaf else h.pair(Zero(h, d - 1), Zero(h, d - 1))
  }

  /** Leaf `i` of the infinite padding of `leaves` by the empty leaf. */
  function PaddedLeaf(h: Hasher, leaves: seq<Node>, i: nat): Node {
    if i < |leaves| then leaves[i] else h.emptyLeaf
  }

  /** Root of the `i`-th window of `2^d` padded leaves. */
  function SubtreeRoot(h: Hasher, leaves: seq<Node>, d: nat, i: nat): Node {
    if d == 0 then PaddedLeaf(h, leaves, i)
    else h.pair(SubtreeRoot(h, leaves, d - 1, 2 * i), SubtreeRoot(h, leaves, d - 1, 2 * i + 1))
  }

  function Root(h: Hasher, leaves: seq<Node>, depth: nat): Node {
    SubtreeRoot(h, leaves, depth, 0)
  }

  /** Windows right of the populated region are empty subtrees. */
  lemma {:induction false} BeyondWidthIsZero(h: Hasher, leaves: seq<Node>, d: nat, i: nat)
    requires i >= Width(|leaves|, d)
    ensures SubtreeRoot(h, leaves, d, i) == Zero(h, d)
  {
    if d != 0 {
      BeyondWidthIsZero(h, leaves, d - 1, 2 * i);
      BeyondWidthIsZero(h, leaves, d - 1, 2 * i + 1);
    }
  }

  /** A window depends only on the padded leaves below it. */
  lemma {:induction false} SubtreeLocality(h: Hasher, a: seq<Node>, b: seq<Node>, d: nat, i: nat)
    requires forall k: nat :: Shift(k, d) == i ==> PaddedLeaf(h, a, k) == PaddedLeaf(h, b, k)
    ensures SubtreeRoot(h, a, d, i) == SubtreeRoot(h, b, d, i)
  {
    if d == 0 {
      assert Shift(i, 0) == i;
    } else {
      SubtreeLocality(h, a, b, d - 1, 2 * i);
      SubtreeLocality(h, a, b, d - 1, 2 * i + 1);
    }
  }

  /** An append changes only the windows above the new leaf. */
  lemma AppendLocality(h: Hasher, leaves: seq<Node>, leaf: Node, d: nat, i: nat)
    requires i != Shift(|leaves|, d)
    ensures SubtreeRoot(h, leaves + [leaf], d, i) == SubtreeRoot(h, leaves, d, i)
  {
    SubtreeLocality(h, leaves + [leaf], leaves, d, i);
  }

  /** Past capacity a tree of height `depth` ignores what is appended. */
  lemma AppendPastCapacityKeepsRoot(h: Hasher, leaves: seq<Node>, leaf: Node, depth: nat)
    requires |leaves| >= Pow2(depth)
    ensures Root(h, leaves + [leaf], depth) == Root(h, leaves, depth)
  {
    ShiftIsZero(|leaves|, depth);
    AppendLocality(h, leaves, leaf, depth, 0);
  }

  // ---------- Merkle paths ----------

  /** A sibling on the path from a leaf to the root. */
  datatype PathElement = PathElement(sibling: Node, siblingOnRight: bool)

  function Combine(h: Hasher, node: Node, el: PathElement): Node {
    if el.siblingOnRight then h.pair(node, el.sibling) else h.pair(el.sibling, node)
  }

  /** The node a leaf and its bottom-up path lead to. */
  function Climb(h: Hasher, leaf: Node, path: seq<PathElement>): Node {
    if path == [] then leaf
    else Combine(h, Climb(h, leaf, path[..|path| - 1]), path[|path| - 1])
  }

  /** The leaf position the direction bits of `path` spell below window `top`. */
  function LeafPosition(path: seq<PathElement>, top: nat): nat {
    if path == [] then top
    else LeafPosition(path[..|path| - 1], 2 * top + if path[|path| - 1].siblingOnRight then 0 else 1)
  }

  function Sibling(i: nat): nat {
    if i % 2 == 0 then i + 1 else i - 1
  }

  /** The path of leaf `i` in a tree of height `d`. */
  function PathOf(h: Hasher, leaves: seq<Node>, d: nat, i: nat): (path: seq<PathElement>)
    ensures |path| == d
  {
    if d == 0 then []
    else
      var idx := Shift(i, d - 1);
      PathOf(h, leaves, d - 1, i) + [PathElement(SubtreeRoot(h, leaves, d - 1, Sibling(idx)), idx % 2 == 0)]
  }

  /** Served paths lead from the leaf to the window above it, and spell its position. */
  lemma {:induction false} PathLeadsToRoot(h: Hasher, leaves: seq<Node>, d: nat, i: nat)
    ensures Climb(h, PaddedLeaf(h, leaves, i), PathOf(h, leaves, d, i)) == SubtreeRoot(h, leaves, d, Shift(i, d))
    ensures LeafPosition(PathOf(h, leaves, d, i), Shift(i, d)) == i
  {
    if d != 0 {
      PathLeadsToRoot(h, leaves, d - 1, i);
      var path := PathOf(h, leaves, d, i);
      assert path[..d - 1] == PathOf(h, leaves, d - 1, i);
    }
  }

  /** The spelled position lies below the window. */
  lemma {:induction false} PositionIsBelow(path: seq<PathElement>, top: nat)
    ensures Shift(LeafPosition(path, top), |path|) == top
  {
    if path != [] {
      PositionIsBelow(path[..|path| - 1], 2 * top + if path[|path| - 1].siblingOnRight then 0 else 1);
    }
  }

  /** The colliding inputs an accepted but wrong path contains: the topmost
      level at which the claimed pair differs from the tree's own pair. */
  function CollisionInPath(h: Hasher, leaves: seq<Node>, leaf: Node, path: seq<PathElement>, top: nat): HashInputs
    requires path != []
  {
    var el := path[|path| - 1];
    var node := Climb(h, leaf, path[..|path| - 1]);
    var a, b := if el.siblingOnRight then node else el.sibling, if el.siblingOnRight then el.sibling else node;
    var c, d := SubtreeRoot(h, leaves, |path| - 1, 2 * top), SubtreeRoot(h, leaves, |path| - 1, 2 * top + 1);
    if (a, b) != (c, d) || |path| == 1 then HashInputs(a, b, c, d)
    else CollisionInPath(h, leaves, leaf, path[..|path| - 1], 2 * top + if el.siblingOnRight then 0 else 1)
  }

  /** Path binding: whatever path is accepted against a window's root, the leaf
      is the tree's own padded leaf at the spelled position, or the path and
      the tree together exhibit a hash collision. */
  lemma {:induction false} PathBinding(h: Hasher, leaves: seq<Node>, leaf: Node, path: seq<PathElement>, top: nat)
    requires Climb(h, leaf, path) == SubtreeRoot(h, leaves, |path|, top)
    ensures leaf == PaddedLeaf(h, leaves, LeafPosition(path, top))
         || (path != [] && IsCollision(h, CollisionInPath(h, leaves, leaf, path, top)))
  {
    if path != [] {
      var el, init := path[|path| - 1], path[..|path| - 1];
      var child := 2 * top + if el.siblingOnRight then 0 else 1;
      if Climb(h, leaf, init) == SubtreeRoot(h, leaves, |init|, child) {
        PathBinding(h, leaves, leaf, init, child);
      }
    }
  }

  /** The colliding inputs on the way down to leaf `k` in two trees with one root. */
  function CollisionInTrees(h: Hasher, a: seq<Node>, b: seq<Node>, d: nat, k: nat): HashInputs
    requires d > 0
  {
    var i := Shift(k, d);
    var x := HashInputs(SubtreeRoot(h, a, d - 1, 2 * i), SubtreeRoot(h, a, d - 1, 2 * i + 1),
                        SubtreeRoot(h, b, d - 1, 2 * i), SubtreeRoot(h, b, d - 1, 2 * i + 1));
    if (x.a, x.b) != (x.c, x.d) || d == 1 then x else CollisionInTrees(h, a, b, d - 1, k)
  }

  /** Root binding: trees with equal window roots agree on every padded leaf
      below, or exhibit a hash collision. */
  lemma {:induction false} RootBinding(h: Hasher, a: seq<Node>, b: seq<Node>, d: nat, k: nat)
    requires SubtreeRoot(h, a, d, Shift(k, d)) == SubtreeRoot(h, b, d, Shift(k, d))
    ensures PaddedLeaf(h, a, k) == PaddedLeaf(h, b, k)
         || (d > 0 && IsCollision(h, CollisionInTrees(h, a, b, d, k)))
  {
    if d != 0 {
      var i := Shift(k, d);
      assert Shift(k, d - 1) == 2 * i || Shift(k, d - 1) == 2 * i + 1;
      if SubtreeRoot(h, a, d - 1, Shift(k, d - 1)) == SubtreeRoot(h, b, d - 1, Shift(k, d - 1)) {
        RootBinding(h, a, b, d - 1, k);
      }
    }
  }

  /** Trees that agree on every padded leaf within capacity have one root. */
  lemma SameLeavesSameRoot(h: Hasher, a: seq<Node>, b: seq<Node>, depth: nat)
    requires forall k: nat :: k < Pow2(depth) ==> PaddedLeaf(h, a, k) == PaddedLeaf(h, b, k)
    ensures Root(h, a, depth) == Root(h, b, depth)
  {
    forall k: nat | Shift(k, depth) == 0 ensures PaddedLeaf(h, a, k) == PaddedLeaf(h, b, k) {
      ShiftIsZero(k, depth);
    }
    SubtreeLocality(h, a, b, depth, 0);
  }

  /** Growing a tree by leaves of which the first is not the empty leaf changes
      its root, or exhibits a hash collision, as long as there was room. */
  lemma GrowthChangesRoot(h: Hasher, leaves: seq<Node>, more: seq<Node>, depth: nat)
    requires |leaves| < Pow2(depth)
    requires more != [] && more[0] != h.emptyLeaf
    ensures Root(h, leaves + more, depth) != Root(h, leaves, depth)
         || (depth > 0 && IsCollision(h, CollisionInTrees(h, leaves + more, leaves, depth, |leaves|)))
  {
    ShiftIsZero(|leaves|, depth);
    if Root(h, leaves + more, depth) == Root(h, leaves, depth) {
      RootBinding(h, leaves + more, leaves, depth, |leaves|);
    }
  }

  /** The exact effect of one append on the root: a non-empty leaf changes it
      if and only if the tree had room, or the two trees exhibit a collision. */
  lemma AppendChangesRootIffRoom(h: Hasher, leaves: seq<Node>, leaf: Node, depth: nat)
    requires leaf != h.emptyLeaf
    ensures (Root(h, leaves + [leaf], depth) != Root(h, leaves, depth) <==> |leaves| < Pow2(depth))
         || (depth > 0 && IsCollision(h, CollisionInTrees(h, leaves + [leaf], leaves, depth, |leaves|)))
  {
    if |leaves| < Pow2(depth) {
      GrowthChangesRoot(h, leaves, [leaf], depth);
    } else {
      AppendPastCapacityKeepsRoot(h, leaves, leaf, depth);
    }
  }
}

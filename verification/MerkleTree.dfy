/** The cached tree as the service keeps it, and the naive rebuild its tests
    compare it with (crates/attesta-core/src/merkle.rs). */
module MerkleTrees {
  import opened Hashing
  import opened Halving
  import opened MerkleSpec
  import opened Wrappers

  /** One row of window roots, `d` levels above `leaves`. */
  ghost predicate IsLevel(h: Hasher, leaves: seq<Node>, d: nat, level: seq<Node>) {
    && |level| == Width(|leaves|, d)
    && forall i :: 0 <= i < |level| ==> level[i] == SubtreeRoot(h, leaves, d, i)
  }

  ghost predicate IsZeros(h: Hasher, zeros: seq<Node>) {
    forall d :: 0 <= d < |zeros| ==> zeros[d] == Zero(h, d)
  }

  /** The cached level with the default of the source: `get(i)`, else the empty subtree. */
  function NodeOr(level: seq<Node>, i: nat, zero: Node): Node {
    if i < |level| then level[i] else zero
  }

  lemma NodeOrIsSubtreeRoot(h: Hasher, leaves: seq<Node>, d: nat, level: seq<Node>, i: nat)
    requires IsLevel(h, leaves, d, level)
    ensures NodeOr(level, i, Zero(h, d)) == SubtreeRoot(h, leaves, d, i)
  {
    if i >= |level| { BeyondWidthIsZero(h, leaves, d, i); }
  }

  lemma SubtreeOfPair(h: Hasher, leaves: seq<Node>, d: nat, i: nat)
    ensures SubtreeRoot(h, leaves, d + 1, i) ==
            h.pair(SubtreeRoot(h, leaves, d, 2 * i), SubtreeRoot(h, leaves, d, 2 * i + 1))
  {}

  lemma LeafLevel(h: Hasher, leaves: seq<Node>)
    ensures IsLevel(h, leaves, 0, leaves)
  {}

  /** One round of the loop in `append`: overwriting or pushing the new leaf's
      ancestor repairs the next level. */
  lemma ParentLevelRepaired(h: Hasher, before: seq<Node>, leaf: Node, d: nat, old': seq<Node>, new': seq<Node>)
    requires IsLevel(h, before, d, old')
    requires Shift(|before|, d) < |new'|
    requires new'[Shift(|before|, d)] == SubtreeRoot(h, before + [leaf], d, Shift(|before|, d))
    requires |new'| == if Shift(|before|, d) == |old'| then |old'| + 1 else |old'|
    requires forall i :: 0 <= i < |old'| && i != Shift(|before|, d) ==> new'[i] == old'[i]
    ensures IsLevel(h, before + [leaf], d, new')
  {
    WidthAfterAppend(|before|, d);
    forall i | 0 <= i < |new'|
      ensures new'[i] == SubtreeRoot(h, before + [leaf], d, i)
    {
      if i != Shift(|before|, d) { AppendLocality(h, before, leaf, d, i); }
    }
  }

  class MerkleTree {
    const hasher: Hasher
    /** `TREE_DEPTH`: 32 in the service, any height here. */
    const depth: nat
    var levels: seq<seq<Node>>
    /** `zeros[d]`: root of an empty subtree of height `d`. */
    var zeros: seq<Node>

    /** Every cached level holds exactly the window roots of the leaves. This
        is kept at every size: capacity is never assumed. */
    ghost predicate Valid()
      reads this
    {
      && |levels| == |zeros| == depth + 1
      && IsZeros(hasher, zeros)
      && forall d :: 0 <= d <= depth ==> IsLevel(hasher, levels[0], d, levels[d])
    }

    ghost function Leaves(): seq<Node>
      reads this
      requires |levels| > 0
    {
      levels[0]
    }

    constructor (hasher: Hasher, depth: nat)
      ensures Valid() && Leaves() == []
      ensures this.hasher == hasher && this.depth == depth
    {
      var zs := [hasher.emptyLeaf];
      for d := 0 to depth
        invariant |zs| == d + 1 && IsZeros(hasher, zs)
      {
        zs := zs + [hasher.pair(zs[d], zs[d])];
      }
      this.hasher := hasher;
      this.depth := depth;
      this.zeros := zs;
      this.levels := seq(depth + 1, _ => []);
      new;
      forall d | 0 <= d <= depth
        ensures IsLevel(hasher, levels[0], d, levels[d])
      {
        WidthOfZero(d);
      }
    }

    /** Rebuilding from scratch: the tree over exactly the given leaves. */
    static method FromLeaves(hasher: Hasher, depth: nat, leaves: seq<Node>) returns (tree: MerkleTree)
      ensures fresh(tree) && tree.Valid() && tree.Leaves() == leaves
      ensures tree.hasher == hasher && tree.depth == depth
    {
      tree := new MerkleTree(hasher, depth);
      for k := 0 to |leaves|
        invariant fresh(tree) && tree.Valid() && tree.Leaves() == leaves[..k]
        invariant tree.hasher == hasher && tree.depth == depth
      {
        var _ := tree.Append(leaves[k]);
        assert leaves[..k] + [leaves[k]] == leaves[..k + 1];
      }
      assert leaves[..|leaves|] == leaves;
    }

    /** Append a leaf and repair its cached ancestors. */
    method Append(leaf: Node) returns (index: nat)
      requires Valid()
      modifies this`levels
      ensures Valid() && Leaves() == old(Leaves()) + [leaf]
      ensures index == |old(Leaves())|
    {
      hide SubtreeRoot, Zero, Width;
      ghost var before := levels[0];
      ghost var start := levels;
      LeafLevel(hasher, before);
      LeafLevel(hasher, before + [leaf]);
      index := |levels[0]|;
      levels := levels[0 := levels[0] + [leaf]];
      var idx := index;
      for d := 0 to depth
        invariant |levels| == depth + 1
        invariant levels[0] == before + [leaf]
        invariant idx == Shift(index, d)
        invariant forall e :: 0 <= e <= d ==> IsLevel(hasher, before + [leaf], e, levels[e])
        invariant forall e :: d < e <= depth ==> levels[e] == start[e]
      {
        var parentIdx := idx / 2;
        WidthAfterAppend(|before|, d);
        WidthAfterAppend(|before|, d + 1);
        var left := levels[d][2 * parentIdx];
        var right := NodeOr(levels[d], 2 * parentIdx + 1, zeros[d]);
        var parent := hasher.pair(left, right);
        NodeOrIsSubtreeRoot(hasher, before + [leaf], d, levels[d], 2 * parentIdx);
        NodeOrIsSubtreeRoot(hasher, before + [leaf], d, levels[d], 2 * parentIdx + 1);

        SubtreeOfPair(hasher, before + [leaf], d, parentIdx);
        var parents := levels[d + 1];
        if parentIdx == |parents| {
          levels := levels[d + 1 := parents + [parent]];
        } else {
          levels := levels[d + 1 := parents[parentIdx := parent]];
        }
        ParentLevelRepaired(hasher, before, leaf, d + 1, parents, levels[d + 1]);
        idx := parentIdx;
      }
    }

    function Len(): nat
      reads this
      requires |levels| > 0
    {
      |levels[0]|
    }

    /** The cached root is the root of the padded tree, the empty tree and an
        over-full one included. */
    method GetRoot() returns (root: Node)
      requires Valid()
      ensures root == Root(hasher, Leaves(), depth)
    {
      root := NodeOr(levels[depth], 0, zeros[depth]);
      NodeOrIsSubtreeRoot(hasher, levels[0], depth, levels[depth], 0);
    }

    /** Bottom-up siblings of leaf `index`; none for a leaf that is not there. */
    method GetPath(index: nat) returns (path: Option<seq<PathElement>>)
      requires Valid()
      ensures path.None? <==> index >= |Leaves()|
      ensures path.Some? ==> path.value == PathOf(hasher, Leaves(), depth, index)
    {
      if index >= |levels[0]| { return None; }
      var elements := [];
      var idx := index;
      for d := 0 to depth
        invariant idx == Shift(index, d)
        invariant elements == PathOf(hasher, levels[0], d, index)
      {
        var sibling := NodeOr(levels[d], Sibling(idx), zeros[d]);
        NodeOrIsSubtreeRoot(hasher, levels[0], d, levels[d], Sibling(idx));
        elements := elements + [PathElement(sibling, idx % 2 == 0)];
        idx := idx / 2;
      }
      path := Some(elements);
    }

    /** Recompute the root from a leaf and a claimed path. */
    method VerifyPath(leaf: Node, path: seq<PathElement>, root: Node) returns (ok: bool)
      ensures ok <==> Climb(hasher, leaf, path) == root
    {
      var node := leaf;
      for k := 0 to |path|
        invariant node == Climb(hasher, leaf, path[..k])
      {
        node := if path[k].siblingOnRight then hasher.pair(node, path[k].sibling)
                else hasher.pair(path[k].sibling, node);
        assert path[..k + 1][..k] == path[..k];
      }
      assert path[..|path|] == path;
      ok := node == root;
    }
  }

  /** The reference of the tests: rebuild level by level. It returns the root
      of the padded tree, so it is what the cached tree returns, at every size. */
  method NaiveRoot(h: Hasher, depth: nat, leaves: seq<Node>) returns (root: Node)
    requires depth > 0
    ensures root == Root(h, leaves, depth)
  {
    var zeros := [h.emptyLeaf];
    for d := 0 to depth
      invariant |zeros| == d + 1 && IsZeros(h, zeros)
    {
      zeros := zeros + [h.pair(zeros[d], zeros[d])];
    }
    var level := leaves;
    for d := 0 to depth
      invariant IsLevel(h, leaves, d, level)
      invariant d > 0 ==> level != []
    {
      if level == [] {
        WidthOfZero(depth);
        BeyondWidthIsZero(h, leaves, depth, 0);
        return zeros[depth];
      }
      var next := [];
      var k := 0;
      while 2 * k < |level|
        invariant 0 <= k <= (|level| + 1) / 2 && |next| == k
        invariant forall i :: 0 <= i < k ==> next[i] == SubtreeRoot(h, leaves, d + 1, i)
      {
        var right := if 2 * k + 1 < |level| then level[2 * k + 1] else zeros[d];
        NodeOrIsSubtreeRoot(h, leaves, d, level, 2 * k + 1);
        next := next + [h.pair(level[2 * k], right)];
        k := k + 1;
      }
      level := next;
    }
    root := level[0];
  }

  /** The cached tree and the naive rebuild never diverge, whatever is appended. */
  method AppendThenCompare(tree: MerkleTree, leaf: Node) returns (agree: bool)
    requires tree.Valid() && tree.depth > 0
    modifies tree`levels
    ensures tree.Valid() && tree.Leaves() == old(tree.Leaves()) + [leaf]
    ensures agree
  {
    var _ := tree.Append(leaf);
    var cached := tree.GetRoot();
    var rebuilt := NaiveRoot(tree.hasher, tree.depth, tree.levels[0]);
    agree := cached == rebuilt;
  }
}

/** One pool's cached tree and its top-up from the `commitments` table
    (crates/attesta-api/src/routes/tree.rs, crates/attesta-api/src/state.rs). */
module Commitments {
  import opened Hashing
  import opened MerkleSpec

  /** The `commitment` column: 32 bytes, or some other number of bytes. */
  datatype Stored = Stored32(node: Node) | Corrupt(bytes: seq<bv8>)

  datatype CommitmentRow = CommitmentRow(commitment: Stored, ledger: int)

  /** One pool's slice of `commitments`, keyed by `leaf_index` (first unique key). */
  type Table = map<int, CommitmentRow>

  /** One row of `tree_roots`; `leaf_count` is its key. */
  datatype RootRow = RootRow(root: Node, ledger: int)

  type History = map<int, RootRow>

  /** The second unique key, `(pool, commitment)`. */
  ghost predicate UniqueCommitments(t: Table) {
    forall i, j :: i in t && j in t && i != j ==> t[i].commitment != t[j].commitment
  }

  /** A row that conflicts with one of the two unique keys. */
  predicate Taken(t: Table, leafIndex: int, commitment: Stored) {
    leafIndex in t || exists k :: k in t && t[k].commitment == commitment
  }

  /** `INSERT INTO commitments ... ON CONFLICT DO NOTHING`. */
  function InsertRow(t: Table, leafIndex: int, row: CommitmentRow): Table {
    if Taken(t, leafIndex, row.commitment) then t else t[leafIndex := row]
  }

  /** `t` holds leaves `0..|leaves|` and nothing is wrong with them. */
  ghost predicate Mirrors(t: Table, leaves: seq<Node>) {
    forall k :: 0 <= k < |leaves| ==> k in t && t[k].commitment == Stored32(leaves[k])
  }

  ghost predicate Extends(t: Table, t': Table) {
    forall k :: k in t ==> k in t' && t'[k] == t[k]
  }

  /** The newest ledger among the first `n` leaves, from 0 up. */
  ghost function Anchor(t: Table, n: nat): int {
    if n == 0 then 0
    else if n - 1 in t && t[n - 1].ledger > Anchor(t, n - 1) then t[n - 1].ledger
    else Anchor(t, n - 1)
  }

  lemma {:induction false} AnchorExtends(t: Table, t': Table, n: nat)
    requires Extends(t, t') && forall k :: 0 <= k < n ==> k in t
    ensures Anchor(t', n) == Anchor(t, n)
  {
    if n != 0 { AnchorExtends(t, t', n - 1); }
  }

  /** What one top-up does to a mirror: grow over consecutive rows, stop in
      front of the first gap, or give up at a row that is not 32 bytes. */
  datatype TopUpResult = ToGap(leaves: seq<Node>) | AtCorruptRow(leaves: seq<Node>)

  ghost function TopUp(t: Table, leaves: seq<Node>): (r: TopUpResult)
    decreases RowsFrom(t, |leaves|)
  {
    if |leaves| !in t then ToGap(leaves)
    else if t[|leaves|].commitment.Corrupt? then AtCorruptRow(leaves)
    else
      assert |leaves| in RowsFrom(t, |leaves|);
      TopUp(t, leaves + [t[|leaves|].commitment.node])
  }

  ghost function RowsFrom(t: Table, n: nat): set<int> {
    set k | k in t && k >= n
  }

  /** A top-up only appends, keeps the mirror, and ends exactly at the end of
      the longest gap-free prefix of the table, or at a corrupt row inside it. */
  lemma {:induction false} TopUpReachesGap(t: Table, leaves: seq<Node>)
    requires Mirrors(t, leaves)
    ensures var r := TopUp(t, leaves);
            && leaves <= r.leaves
            && Mirrors(t, r.leaves)
            && if r.ToGap? then |r.leaves| !in t else |r.leaves| in t && t[|r.leaves|].commitment.Corrupt?
    decreases RowsFrom(t, |leaves|)
  {
    if |leaves| in t && t[|leaves|].commitment.Stored32? {
      assert |leaves| in RowsFrom(t, |leaves|);
      TopUpReachesGap(t, leaves + [t[|leaves|].commitment.node]);
    }
  }

  lemma TopUpTakesRow(t: Table, leaves: seq<Node>, node: Node)
    requires |leaves| in t && t[|leaves|].commitment == Stored32(node)
    ensures TopUp(t, leaves + [node]) == TopUp(t, leaves)
  {}

  /** Two mirrors of one table are prefixes of each other. */
  lemma MirrorsAgree(t: Table, a: seq<Node>, b: seq<Node>)
    requires Mirrors(t, a) && Mirrors(t, b) && |a| <= |b|
    ensures a == b[..|a|]
  {
    forall k | 0 <= k < |a| ensures a[k] == b[k] {
      assert t[k].commitment == Stored32(a[k]);
    }
  }

  /** History independence: a mirror built from any older state of the table
      and topped up now is the mirror built from nothing now. */
  lemma TopUpFromScratch(t: Table, leaves: seq<Node>)
    requires Mirrors(t, leaves)
    ensures TopUp(t, leaves) == TopUp(t, [])
  {
    TopUpReachesGap(t, leaves);
    TopUpReachesGap(t, []);
    var a, b := TopUp(t, leaves), TopUp(t, []);
    if |a.leaves| <= |b.leaves| { MirrorsAgree(t, a.leaves, b.leaves); } else { MirrorsAgree(t, b.leaves, a.leaves); }
  }

  /** A `tree_roots` row tells the truth about the table. */
  ghost predicate RootRowOk(h: Hasher, depth: nat, t: Table, n: int, row: RootRow) {
    && n >= 1 && Intact(t, n)
    && row.root == Root(h, FirstLeaves(t, n), depth)
    && row.ledger == t[n - 1].ledger
  }

  /** Leaves `0..n` are all there, 32 bytes each. */
  ghost predicate Intact(t: Table, n: nat) {
    forall k :: 0 <= k < n ==> k in t && t[k].commitment.Stored32?
  }

  ghost function FirstLeaves(t: Table, n: nat): (leaves: seq<Node>)
    requires Intact(t, n)
    ensures |leaves| == n && Mirrors(t, leaves)
  {
    seq(n, k requires 0 <= k < n => t[k].commitment.node)
  }

  lemma RootRowSurvivesGrowth(h: Hasher, depth: nat, t: Table, t': Table, n: int, row: RootRow)
    requires RootRowOk(h, depth, t, n, row) && Extends(t, t')
    ensures RootRowOk(h, depth, t', n, row)
  {
    assert FirstLeaves(t', n) == FirstLeaves(t, n);
  }

  /** Every row a true table can ever justify at `leaf_count` n is the same row. */
  lemma RootRowIsUnique(h: Hasher, depth: nat, t: Table, n: int, a: RootRow, b: RootRow)
    requires RootRowOk(h, depth, t, n, a) && RootRowOk(h, depth, t, n, b)
    ensures a == b
  {}
}

module PoolTrees {
  import opened Hashing
  import opened Halving
  import opened MerkleSpec
  import opened MerkleTrees
  import opened Wrappers
  import opened Commitments

  lemma BatchGrows(h: Hasher, depth: nat, t: Table, from: nat, newRoots: seq<NewRoot>, newRoot: NewRoot)
    requires IsBatch(h, depth, t, from, newRoots)
    requires newRoot.leafCount == from + |newRoots| + 1 && RootRowOk(h, depth, t, newRoot.leafCount, newRoot.row)
    ensures IsBatch(h, depth, t, from, newRoots + [newRoot])
  {}

  /** One row of the top-up query, in the order the query returns them. */
  datatype FetchedRow = FetchedRow(leafIndex: int, row: CommitmentRow)

  ghost function Indexes(rows: seq<FetchedRow>): set<int> {
    set i | 0 <= i < |rows| :: rows[i].leafIndex
  }

  /** The answer of `WHERE leaf_index >= $2 ORDER BY leaf_index`. */
  ghost predicate IsTopUpQuery(t: Table, from: nat, rows: seq<FetchedRow>) {
    && (forall i, j :: 0 <= i < j < |rows| ==> rows[i].leafIndex < rows[j].leafIndex)
    && (forall i :: 0 <= i < |rows| ==> rows[i].leafIndex in t && t[rows[i].leafIndex] == rows[i].row)
    && Indexes(rows) == RowsFrom(t, from)
  }

  /** A history row waiting to be inserted. */
  datatype NewRoot = NewRoot(leafCount: int, row: RootRow)

  /** The history rows of consecutive appends to a mirror of `from` leaves. */
  ghost predicate IsBatch(h: Hasher, depth: nat, t: Table, from: nat, newRoots: seq<NewRoot>) {
    forall i :: 0 <= i < |newRoots| ==>
      newRoots[i].leafCount == from + i + 1 && RootRowOk(h, depth, t, newRoots[i].leafCount, newRoots[i].row)
  }

  datatype PathAnswer = PathAnswer(leafIndex: nat, root: Node, leafCount: nat, anchoredLedger: int, path: seq<PathElement>)

  /** The index map names a position of its key, and knows every leaf. */
  ghost predicate IndexOk(index: map<Node, nat>, leaves: seq<Node>) {
    && (forall c :: c in index ==> index[c] < |leaves| && leaves[index[c]] == c)
    && (forall k :: 0 <= k < |leaves| ==> leaves[k] in index)
  }

  lemma IndexGrows(index: map<Node, nat>, leaves: seq<Node>, node: Node)
    requires IndexOk(index, leaves)
    ensures IndexOk(index[node := |leaves|], leaves + [node])
  {}

  class PoolTree {
    const tree: MerkleTree
    /** `index_by_commitment`. */
    var indexByCommitment: map<Node, nat>
    /** Ledger of the newest leaf. */
    var anchoredLedger: int

    ghost predicate Valid()
      reads this, tree
    {
      && tree.Valid()
      && IndexOk(indexByCommitment, tree.Leaves())
    }

    /** The cache tells the truth about the table. */
    ghost predicate Caches(t: Table)
      reads this, tree
    {
      && Valid()
      && Mirrors(t, tree.Leaves())
      && anchoredLedger == Anchor(t, |tree.Leaves()|)
    }

    constructor (hasher: Hasher, depth: nat)
      ensures Valid() && fresh(tree) && tree.Leaves() == [] && anchoredLedger == 0
      ensures tree.hasher == hasher && tree.depth == depth
    {
      tree := new MerkleTree(hasher, depth);
      indexByCommitment := map[];
      anchoredLedger := 0;
    }

    /** One round of the loop: append the next leaf and note its history row. */
    method AbsorbRow(ghost t: Table, node: Node, ledger: int) returns (newRoot: NewRoot)
      requires Caches(t)
      requires |tree.Leaves()| in t && t[|tree.Leaves()|] == CommitmentRow(Stored32(node), ledger)
      modifies this, tree`levels
      ensures Caches(t) && tree.Leaves() == old(tree.Leaves()) + [node]
      ensures TopUp(t, tree.Leaves()) == TopUp(t, old(tree.Leaves()))
      ensures newRoot.leafCount == |tree.Leaves()| && RootRowOk(tree.hasher, tree.depth, t, newRoot.leafCount, newRoot.row)
    {
      hide TopUp, IndexOk;
      TopUpTakesRow(t, tree.Leaves(), node);
      IndexGrows(indexByCommitment, tree.Leaves(), node);
      var idx := tree.Append(node);
      indexByCommitment := indexByCommitment[node := idx];
      anchoredLedger := if ledger > anchoredLedger then ledger else anchoredLedger;
      var root := tree.GetRoot();
      assert FirstLeaves(t, tree.Len()) == tree.Leaves();
      newRoot := NewRoot(tree.Len(), RootRow(root, ledger));
    }

    /** The in-memory half of `sync_pool_tree`: absorb the fetched rows. The
        history rows it returns are the ones still to be inserted; on a corrupt
        row it fails and they are lost although the tree has grown. */
    method Absorb(ghost t: Table, rows: seq<FetchedRow>) returns (newRoots: seq<NewRoot>, corrupt: bool)
      requires Caches(t) && IsTopUpQuery(t, |tree.Leaves()|, rows)
      modifies this, tree`levels
      ensures Caches(t)
      ensures TopUp(t, old(tree.Leaves())) ==
              if corrupt then AtCorruptRow(tree.Leaves()) else ToGap(tree.Leaves())
      ensures |newRoots| == |tree.Leaves()| - |old(tree.Leaves())|
      ensures IsBatch(tree.hasher, tree.depth, t, |old(tree.Leaves())|, newRoots)
    {
      hide Anchor, RootRowOk, IndexOk, Intact;
      newRoots := [];
      ghost var start := tree.Leaves();
      var i := 0;
      while i < |rows|
        invariant 0 <= i <= |rows| && |newRoots| == i
        invariant Caches(t) && |tree.Leaves()| == |start| + i
        invariant TopUp(t, tree.Leaves()) == TopUp(t, start)
        invariant forall j :: 0 <= j < i ==> rows[j].leafIndex == |start| + j
        invariant IsBatch(tree.hasher, tree.depth, t, |start|, newRoots)
      {
        if rows[i].leafIndex != tree.Len() {
          FirstMissingLeaf(t, |start|, rows, i);
          return newRoots, false;
        }
        assert rows[i].leafIndex == |start| + i;
        if rows[i].row.commitment.Corrupt? {
          return newRoots, true;
        }
        var newRoot := AbsorbRow(t, rows[i].row.commitment.node, rows[i].row.ledger);
        BatchGrows(tree.hasher, tree.depth, t, |start|, newRoots, newRoot);
        newRoots := newRoots + [newRoot];
        i := i + 1;
      }
      FirstMissingLeaf(t, |start|, rows, i);
      corrupt := false;
    }

    /** The lookup half of `get_path`: none is the 404 of an unknown commitment. */
    method LookupPath(commitment: Node) returns (answer: Option<PathAnswer>)
      requires Valid()
      ensures answer.None? <==> commitment !in tree.Leaves()
      ensures answer.Some? ==>
                var a := answer.value;
                && a.leafIndex < |tree.Leaves()| == a.leafCount && tree.Leaves()[a.leafIndex] == commitment
                && a.root == Root(tree.hasher, tree.Leaves(), tree.depth)
                && a.anchoredLedger == anchoredLedger
                && |a.path| == tree.depth
                && LeafPosition(a.path, Shift(a.leafIndex, tree.depth)) == a.leafIndex
                && (a.leafIndex < Pow2(tree.depth) ==> Climb(tree.hasher, commitment, a.path) == a.root)
    {
      if commitment !in indexByCommitment { return None; }
      var leafIndex := indexByCommitment[commitment];
      var path := tree.GetPath(leafIndex);
      var root := tree.GetRoot();
      PathLeadsToRoot(tree.hasher, tree.Leaves(), tree.depth, leafIndex);
      ShiftIsZero(leafIndex, tree.depth);
      answer := Some(PathAnswer(leafIndex, root, tree.Len(), anchoredLedger, path.value));
    }

    /** Given the table's unique commitments, a served path verifies against the
        root if and only if its leaf is within capacity, or the path and the
        tree exhibit a hash collision. */
    lemma PathVerifiesIffWithinCapacity(t: Table, i: nat)
      requires Caches(t) && UniqueCommitments(t) && i < |tree.Leaves()|
      ensures var path := PathOf(tree.hasher, tree.Leaves(), tree.depth, i);
              || (Climb(tree.hasher, tree.Leaves()[i], path) == Root(tree.hasher, tree.Leaves(), tree.depth)
                  <==> i < Pow2(tree.depth))
              || (path != [] && IsCollision(tree.hasher, CollisionInPath(tree.hasher, tree.Leaves(), tree.Leaves()[i], path, 0)))
    {
      var h, leaves, depth := tree.hasher, tree.Leaves(), tree.depth;
      var path := PathOf(h, leaves, depth, i);
      PathLeadsToRoot(h, leaves, depth, i);
      ShiftIsZero(i, depth);
      if i >= Pow2(depth) && Climb(h, leaves[i], path) == Root(h, leaves, depth) {
        PathBinding(h, leaves, leaves[i], path, 0);
        var j := LeafPosition(path, 0);
        PositionIsBelow(path, 0);
        ShiftIsZero(j, depth);
        assert t[i].commitment != t[j].commitment;
      }
    }

    /** Given the table's unique commitments, the index map is the exact
        inverse of the leaf list. */
    lemma IndexIsExactInverse(t: Table)
      requires Caches(t) && UniqueCommitments(t)
      ensures forall k :: 0 <= k < |tree.Leaves()| ==> indexByCommitment[tree.Leaves()[k]] == k
    {
      forall k | 0 <= k < |tree.Leaves()|
        ensures indexByCommitment[tree.Leaves()[k]] == k
      {
        var j := indexByCommitment[tree.Leaves()[k]];
        assert t[j].commitment == t[k].commitment;
      }
    }
  }

  /** After `i` consecutive rows, a missing or later next row means a gap. */
  lemma FirstMissingLeaf(t: Table, from: nat, rows: seq<FetchedRow>, i: nat)
    requires IsTopUpQuery(t, from, rows) && i <= |rows|
    requires forall j :: 0 <= j < i ==> rows[j].leafIndex == from + j
    requires i < |rows| ==> rows[i].leafIndex != from + i
    ensures from + i !in t
  {
    assert from + i in t ==> from + i in RowsFrom(t, from);
    assert i < |rows| ==> rows[i].leafIndex in Indexes(rows);
    if 0 < i < |rows| { assert rows[i - 1].leafIndex < rows[i].leafIndex; }
    forall j | 0 <= j < |rows| ensures rows[j].leafIndex != from + i {
      if i < j { assert rows[i].leafIndex < rows[j].leafIndex; }
    }
  }
}

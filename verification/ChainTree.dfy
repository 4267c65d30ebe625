/** From the chain's events to the served root: the indexer's table and the
    replica's tree together (crates/attesta-indexer/src/ingest.rs,
    crates/attesta-api/src/routes/tree.rs). */
module ChainTree {
  import opened Wrappers
  import opened Hashing
  import opened MerkleSpec
  import opened Commitments
  import opened PoolTrees
  import opened RootLookup
  import opened IngestSpec
  import opened Ingest

  /** The commitments of the first `n` events, in the chain's order. */
  function LeavesIn(log: seq<RawEvent>, n: nat): seq<Node>
    requires n <= |log|
  {
    if n == 0 then []
    else
      LeavesIn(log, n - 1)
      + match log[n - 1].decoded
        case Some(NewCommitment(c, i, d, a)) => [c]
        case _ => []
  }

  /** The ledgers of those commitments. */
  function LedgersIn(log: seq<RawEvent>, n: nat): seq<int>
    requires n <= |log|
  {
    if n == 0 then []
    else
      LedgersIn(log, n - 1)
      + match log[n - 1].decoded
        case Some(NewCommitment(c, i, d, a)) => [log[n - 1].ledger]
        case _ => []
  }

  /** The pool contract numbers its commitments 0, 1, 2, ... and never repeats one. */
  ghost predicate InSequence(log: seq<RawEvent>, n: nat)
    requires n <= |log|
  {
    n == 0 ||
    (&& InSequence(log, n - 1)
     && match log[n - 1].decoded
        case Some(NewCommitment(c, i, d, a)) => i == |LeavesIn(log, n - 1)| && c !in LeavesIn(log, n - 1)
        case _ => true)
  }

  /** The table holds exactly these leaves with these ledgers, in ledger order,
      none later than any event from `n` on. */
  ghost predicate HoldsLeaves(t: Table, leaves: seq<Node>, ledgers: seq<int>, log: seq<RawEvent>, n: nat) {
    && (forall k :: k in t <==> 0 <= k < |leaves|)
    && |ledgers| == |leaves| && (forall k :: k in t ==> t[k].ledger == ledgers[k])
    && Mirrors(t, leaves)
    && (forall k :: k in t ==> t[k].ledger >= 0)
    && (forall j, k :: j in t && k in t && j < k ==> t[j].ledger <= t[k].ledger)
    && (forall k, i :: k in t && n <= i < |log| ==> t[k].ledger <= log[i].ledger)
  }

  lemma InsertHolds(t: Table, leaves: seq<Node>, ledgers: seq<int>, log: seq<RawEvent>, n: nat, c: Node)
    requires n < |log| && LedgerOrder(log) && HoldsLeaves(t, leaves, ledgers, log, n) && c !in leaves
    ensures HoldsLeaves(InsertRow(t, |leaves|, CommitmentRow(Stored32(c), log[n].ledger)), leaves + [c],
                        ledgers + [log[n].ledger], log, n + 1)
  {
    assert forall k :: k in t ==> t[k].commitment == Stored32(leaves[k]);
  }

  /** The table of one crash-free pass over events in sequence is the chain's
      own list of leaves. */
  lemma {:induction false} IndexedTableIsChain(log: seq<RawEvent>, n: nat)
    requires n <= |log| && LedgerOrder(log) && InSequence(log, n)
    ensures HoldsLeaves(FirstFold(log, Straight(n)).commitments, LeavesIn(log, n), LedgersIn(log, n), log, n)
  {
    hide HoldsLeaves, InsertRow, FirstFold;
    if n == 0 {
      EmptyTable(log);
    } else {
      IndexedTableIsChain(log, n - 1);
      StraightFirst(log, n);
      var f, raw := FirstFold(log, Straight(n - 1)), log[n - 1];
      match raw.decoded
      case Some(NewCommitment(c, i, d, a)) =>
        InsertHolds(f.commitments, LeavesIn(log, n - 1), LedgersIn(log, n - 1), log, n - 1, c);
      case _ =>
        assert OfferFirst(f, raw).commitments == f.commitments;
        assert LeavesIn(log, n) == LeavesIn(log, n - 1) && LedgersIn(log, n) == LedgersIn(log, n - 1);
        HoldsLater(f.commitments, LeavesIn(log, n - 1), LedgersIn(log, n - 1), log, n - 1);
    }
  }

  lemma EmptyTable(log: seq<RawEvent>)
    ensures HoldsLeaves(FirstFold(log, Straight(0)).commitments, [], [], log, 0)
  {}

  lemma HoldsLater(t: Table, leaves: seq<Node>, ledgers: seq<int>, log: seq<RawEvent>, n: nat)
    requires HoldsLeaves(t, leaves, ledgers, log, n)
    ensures HoldsLeaves(t, leaves, ledgers, log, n + 1)
  {}

  /** What a replica makes of it: all the chain's leaves, in the chain's order;
      the lookups' assumption on ledgers holds. */
  lemma TopUpIsChain(log: seq<RawEvent>, n: nat)
    requires n <= |log| && LedgerOrder(log) && InSequence(log, n)
    ensures var t, leaves := FirstFold(log, Straight(n)).commitments, LeavesIn(log, n);
            && TopUp(t, []) == ToGap(leaves)
            && Intact(t, |leaves|) && LedgersInOrder(t, |leaves|)
  {
    var t, leaves := FirstFold(log, Straight(n)).commitments, LeavesIn(log, n);
    IndexedTableIsChain(log, n);
    HeldLeavesAreToppedUp(t, leaves, LedgersIn(log, n), log, n);
  }

  lemma HeldLeavesAreToppedUp(t: Table, leaves: seq<Node>, ledgers: seq<int>, log: seq<RawEvent>, n: nat)
    requires HoldsLeaves(t, leaves, ledgers, log, n)
    ensures TopUp(t, []) == ToGap(leaves)
    ensures Intact(t, |leaves|) && LedgersInOrder(t, |leaves|)
  {
    TopUpReachesGap(t, []);
    var r := TopUp(t, []);
    assert forall k :: k in t ==> t[k].commitment == Stored32(leaves[k]);
    assert |r.leaves| > 0 ==> |r.leaves| - 1 in t;
    MirrorsAgree(t, r.leaves, leaves);
  }

  /** End to end: once the indexer has passed over the visible log, in however
      many passes and crashes, a replica that tops up serves the root of the
      chain's commitments in the chain's order; it meets no corrupt row. */
  method ServeRoot(indexer: Indexer, pool: PoolTree, rows: seq<FetchedRow>)
    returns (root: Node, newRoots: seq<NewRoot>, corrupt: bool)
    requires indexer.Valid() && InSequence(indexer.chain.log, indexer.chain.Visible())
    requires indexer.Position() == indexer.chain.Visible()
    requires pool.Caches(indexer.first.commitments)
    requires IsTopUpQuery(indexer.first.commitments, |pool.tree.Leaves()|, rows)
    modifies pool, pool.tree`levels
    ensures !corrupt && pool.Caches(indexer.first.commitments)
    ensures pool.tree.Leaves() == LeavesIn(indexer.chain.log, indexer.chain.Visible())
    ensures root == Root(pool.tree.hasher, LeavesIn(indexer.chain.log, indexer.chain.Visible()), pool.tree.depth)
  {
    ghost var t, log, n := indexer.first.commitments, indexer.chain.log, indexer.chain.Visible();
    PassedTableIsChain(indexer);
    TopUpFromScratch(t, pool.tree.Leaves());
    newRoots, corrupt := pool.Absorb(t, rows);
    root := pool.tree.GetRoot();
  }

  lemma PassedTableIsChain(indexer: Indexer)
    requires indexer.Valid() && InSequence(indexer.chain.log, indexer.chain.Visible())
    requires indexer.Position() == indexer.chain.Visible()
    ensures TopUp(indexer.first.commitments, []) == ToGap(LeavesIn(indexer.chain.log, indexer.chain.Visible()))
  {
    indexer.Known();
    indexer.FirstWinsAlwaysConverged();
    WalkReach(indexer.visited);
    TopUpIsChain(indexer.chain.log, indexer.chain.Visible());
  }
}

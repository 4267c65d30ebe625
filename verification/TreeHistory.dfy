/** The `tree_roots` history under replicas, crashes and failed batches
    (crates/attesta-api/src/routes/tree.rs, migrations/0002_tree_roots.sql).

    Any number of API replicas top up their own mirrors of one pool. Every SQL
    statement is one step; between two steps of one replica anything may happen.
  */
module TreeHistory {
  import opened Hashing
  import opened Halving
  import opened MerkleSpec
  import opened Commitments
  import opened PoolTrees
  import opened RootLookup

  /** Where a replica's request is; it holds the tree lock unless it is idle. */
  datatype Phase =
    | Idle
    | Fetched(snapshot: Table)  // has its query answer
    | Grown(batch: History)     // has grown in memory, history rows not inserted yet

  /** `lost`: the sizes whose rows were in batches it lost since its last restart. */
  datatype Replica = Replica(leaves: seq<Node>, anchored: int, phase: Phase, lost: set<int>)

  datatype State = State(table: Table, history: History, replicas: map<int, Replica>)

  datatype Action =
    | Insert(leafIndex: int, row: CommitmentRow)  // the indexer, in any order
    | Restart(r: int)   // a replica starts (again) with an empty cache
    | Fetch(r: int)
    | Grow(r: int)
    | Persist(r: int)
    | Abandon(r: int)   // the request is dropped or its statement fails

  ghost predicate ActsOn(a: Action, r: int) {
    !a.Insert? && a.r == r
  }

  ghost predicate NotBy(actions: seq<Action>, r: int) {
    forall a :: a in actions ==> !ActsOn(a, r)
  }

  const FRESH := Replica([], 0, Idle, {})

  function Init(): State {
    State(map[], map[], map[])
  }

  /** The history rows of growing a mirror from `from` leaves to `leaves`. */
  ghost function GrownRows(h: Hasher, depth: nat, t: Table, from: nat, leaves: seq<Node>): History {
    map n: int | from < n <= |leaves| && n - 1 in t :: RootRow(Root(h, leaves[..n], depth), t[n - 1].ledger)
  }

  ghost function GrowReplica(h: Hasher, depth: nat, rep: Replica): Replica
    requires rep.phase.Fetched?
  {
    var r := TopUp(rep.phase.snapshot, rep.leaves);
    var rows := GrownRows(h, depth, rep.phase.snapshot, |rep.leaves|, r.leaves);
    var anchored := Anchor(rep.phase.snapshot, |r.leaves|);
    if r.ToGap? then Replica(r.leaves, anchored, Grown(rows), rep.lost)
    else Replica(r.leaves, anchored, Idle, rep.lost + rows.Keys)
  }

  /** The history rows it has computed and not inserted yet. */
  ghost function Unsaved(rep: Replica): History {
    if rep.phase.Grown? then rep.phase.batch else map[]
  }

  ghost function Step(h: Hasher, depth: nat, s: State, a: Action): State {
    match a
    case Insert(leafIndex, row) => s.(table := InsertRow(s.table, leafIndex, row))
    case Restart(r) => s.(replicas := s.replicas[r := FRESH])
    case Fetch(r) =>
      if r in s.replicas && s.replicas[r].phase.Idle?
      then s.(replicas := s.replicas[r := s.replicas[r].(phase := Fetched(s.table))]) else s
    case Grow(r) =>
      if r in s.replicas && s.replicas[r].phase.Fetched?
      then s.(replicas := s.replicas[r := GrowReplica(h, depth, s.replicas[r])]) else s
    case Persist(r) =>
      if r in s.replicas && s.replicas[r].phase.Grown?
      // ON CONFLICT (pool, leaf_count) DO NOTHING: recorded rows win
      then s.(history := s.replicas[r].phase.batch + s.history,
              replicas := s.replicas[r := s.replicas[r].(phase := Idle)]) else s
    case Abandon(r) =>
      if r in s.replicas
      then s.(replicas := s.replicas[r := s.replicas[r].(
                phase := Idle,
                lost := s.replicas[r].lost + Unsaved(s.replicas[r]).Keys)])
      else s
  }

  ghost function Run(h: Hasher, depth: nat, s: State, actions: seq<Action>): State {
    if actions == [] then s
    else Step(h, depth, Run(h, depth, s, actions[..|actions| - 1]), actions[|actions| - 1])
  }

  // ---------- The invariant ----------

  ghost predicate RowsOk(h: Hasher, depth: nat, t: Table, rows: History) {
    forall n :: n in rows ==> RootRowOk(h, depth, t, n, rows[n])
  }

  ghost predicate Has(rows: History, n: int) {
    n in rows
  }

  /** Every size up to `n` is on record, pending or lost. */
  ghost predicate Covers(history: History, batch: History, lost: set<int>, n: nat) {
    forall k {:trigger Has(history, k)} :: 1 <= k <= n ==> Has(history, k) || k in batch || k in lost
  }

  /** Pending and lost sizes are different ones, within the mirror. */
  ghost predicate SizesOk(rep: Replica) {
    && Unsaved(rep).Keys !! rep.lost
    && forall n :: n in Unsaved(rep) || n in rep.lost ==> 1 <= n <= |rep.leaves|
  }

  ghost predicate ReplicaOk(h: Hasher, depth: nat, s: State, rep: Replica) {
    && Mirrors(s.table, rep.leaves)
    && rep.anchored == Anchor(s.table, |rep.leaves|)
    && (rep.phase.Fetched? ==> Extends(rep.phase.snapshot, s.table) && Mirrors(rep.phase.snapshot, rep.leaves))
    && RowsOk(h, depth, s.table, Unsaved(rep))
    && SizesOk(rep)
    && Covers(s.history, Unsaved(rep), rep.lost, |rep.leaves|)
  }

  ghost predicate Inv(h: Hasher, depth: nat, s: State) {
    && UniqueCommitments(s.table)
    && RowsOk(h, depth, s.table, s.history)
    && forall r :: r in s.replicas ==> ReplicaOk(h, depth, s, s.replicas[r])
  }

  lemma InsertKeepsInv(h: Hasher, depth: nat, s: State, leafIndex: int, row: CommitmentRow)
    requires Inv(h, depth, s)
    ensures Inv(h, depth, Step(h, depth, s, Insert(leafIndex, row)))
  {
    var s' := Step(h, depth, s, Insert(leafIndex, row));
    assert Extends(s.table, s'.table);
    RowsSurviveGrowth(h, depth, s.table, s'.table, s.history);
    forall r | r in s'.replicas
      ensures ReplicaOk(h, depth, s', s'.replicas[r])
    {
      var rep := s.replicas[r];
      assert ReplicaOk(h, depth, s, rep);
      AnchorExtends(s.table, s'.table, |rep.leaves|);
      RowsSurviveGrowth(h, depth, s.table, s'.table, Unsaved(rep));
    }
  }

  lemma RowsSurviveGrowth(h: Hasher, depth: nat, t: Table, t': Table, rows: History)
    requires RowsOk(h, depth, t, rows) && Extends(t, t')
    ensures RowsOk(h, depth, t', rows)
  {
    forall n | n in rows ensures RootRowOk(h, depth, t', n, rows[n]) {
      RootRowSurvivesGrowth(h, depth, t, t', n, rows[n]);
    }
  }

  lemma GrownRowsOk(h: Hasher, depth: nat, t: Table, from: nat, leaves: seq<Node>)
    requires Mirrors(t, leaves)
    ensures RowsOk(h, depth, t, GrownRows(h, depth, t, from, leaves))
  {
    var rows := GrownRows(h, depth, t, from, leaves);
    forall n | n in rows ensures RootRowOk(h, depth, t, n, rows[n]) {
      assert FirstLeaves(t, n) == leaves[..n];
    }
  }

  lemma GrowKeepsReplicaOk(h: Hasher, depth: nat, s: State, rep: Replica)
    requires ReplicaOk(h, depth, s, rep) && rep.phase.Fetched?
    ensures ReplicaOk(h, depth, s, GrowReplica(h, depth, rep))
  {
    var snap := rep.phase.snapshot;
    var leaves := TopUp(snap, rep.leaves).leaves;
    var rows := GrownRows(h, depth, snap, |rep.leaves|, leaves);
    var rep' := GrowReplica(h, depth, rep);
    TopUpReachesGap(snap, rep.leaves);
    AnchorExtends(snap, s.table, |leaves|);
    GrownRowsOk(h, depth, snap, |rep.leaves|, leaves);
    RowsSurviveGrowth(h, depth, snap, s.table, rows);
    forall k | 1 <= k <= |leaves| ensures Has(s.history, k) || k in rows || k in rep.lost {
      if k <= |rep.leaves| { assert Has(s.history, k) || k in Unsaved(rep) || k in rep.lost; } else { assert k - 1 in snap; }
    }
  }

  /** A replica's sizes stay covered when others add history rows. */
  lemma CoverageGrows(history: History, history': History, batch: History, lost: set<int>, n: nat)
    requires Covers(history, batch, lost, n)
    requires forall k :: k in history ==> k in history'
    ensures Covers(history', batch, lost, n)
  {
    forall k | 1 <= k <= n ensures Has(history', k) || k in batch || k in lost {
      assert Has(history, k) || k in batch || k in lost;
    }
  }

  lemma StepKeepsReplicaOk(h: Hasher, depth: nat, s: State, a: Action, r: int)
    requires Inv(h, depth, s) && !a.Insert?
    requires r in Step(h, depth, s, a).replicas
    ensures ReplicaOk(h, depth, Step(h, depth, s, a), Step(h, depth, s, a).replicas[r])
  {
    hide UniqueCommitments, RootRowOk, TopUp;
    var s' := Step(h, depth, s, a);
    if r in s.replicas {
      var rep := s.replicas[r];
      assert ReplicaOk(h, depth, s, rep);
      CoverageGrows(s.history, s'.history, Unsaved(rep), rep.lost, |rep.leaves|);
      if a.Grow? && a.r == r && rep.phase.Fetched? {
        GrowKeepsReplicaOk(h, depth, s, rep);
      } else if !a.Fetch? && !a.Restart? && a.r == r {
        forall k | 1 <= k <= |rep.leaves| ensures Has(s'.history, k) || k in Unsaved(s'.replicas[r]) || k in s'.replicas[r].lost {
          assert Has(s.history, k) || k in Unsaved(rep) || k in rep.lost;
        }
      }
    }
  }

  lemma StepKeepsInv(h: Hasher, depth: nat, s: State, a: Action)
    requires Inv(h, depth, s)
    ensures Inv(h, depth, Step(h, depth, s, a))
  {
    if a.Insert? {
      InsertKeepsInv(h, depth, s, a.leafIndex, a.row);
    } else {
      var s' := Step(h, depth, s, a);
      if a.Persist? && a.r in s.replicas { assert ReplicaOk(h, depth, s, s.replicas[a.r]); }
      forall r | r in s'.replicas ensures ReplicaOk(h, depth, s', s'.replicas[r]) {
        StepKeepsReplicaOk(h, depth, s, a, r);
      }
    }
  }

  // ---------- Main results, over every run ----------

  lemma {:induction false} RunKeepsInv(h: Hasher, depth: nat, s: State, actions: seq<Action>)
    requires Inv(h, depth, s)
    ensures Inv(h, depth, Run(h, depth, s, actions))
  {
    if actions != [] {
      RunKeepsInv(h, depth, s, actions[..|actions| - 1]);
      StepKeepsInv(h, depth, Run(h, depth, s, actions[..|actions| - 1]), actions[|actions| - 1]);
    }
  }

  /** Whatever inserts, top-ups, crashes and lost batches happened: every
      history row is the root of exactly the first `n` table leaves, with the
      ledger of leaf `n - 1`; every cached mirror is a prefix of the table. */
  lemma HistoryNeverLies(h: Hasher, depth: nat, actions: seq<Action>)
    ensures var s := Run(h, depth, Init(), actions);
            && (forall n :: n in s.history ==> RootRowOk(h, depth, s.table, n, s.history[n]))
            && (forall r :: r in s.replicas ==>
                  Mirrors(s.table, s.replicas[r].leaves) && s.replicas[r].anchored == Anchor(s.table, |s.replicas[r].leaves|))
  {
    RunKeepsInv(h, depth, Init(), actions);
    var s := Run(h, depth, Init(), actions);
    forall r | r in s.replicas
      ensures Mirrors(s.table, s.replicas[r].leaves) && s.replicas[r].anchored == Anchor(s.table, |s.replicas[r].leaves|)
    {
      assert ReplicaOk(h, depth, s, s.replicas[r]);
    }
  }

  /** Tables are insert-only: what a run has recorded it never changes. */
  lemma {:induction false} RunOnlyAdds(h: Hasher, depth: nat, s: State, actions: seq<Action>)
    ensures Extends(s.table, Run(h, depth, s, actions).table)
    ensures forall n :: n in s.history ==>
              n in Run(h, depth, s, actions).history && Run(h, depth, s, actions).history[n] == s.history[n]
  {
    if actions != [] { RunOnlyAdds(h, depth, s, actions[..|actions| - 1]); }
  }

  /** Replicas can never disagree: at every moment the larger mirror extends
      the smaller one, and batches that name one leaf count name one row. */
  lemma ReplicasAgree(h: Hasher, depth: nat, actions: seq<Action>, p: int, q: int)
    requires var s := Run(h, depth, Init(), actions); p in s.replicas && q in s.replicas
    requires var s := Run(h, depth, Init(), actions); |s.replicas[p].leaves| <= |s.replicas[q].leaves|
    ensures var s := Run(h, depth, Init(), actions);
            && s.replicas[p].leaves <= s.replicas[q].leaves
            && (forall n :: n in Unsaved(s.replicas[p]) && n in Unsaved(s.replicas[q]) ==>
                  Unsaved(s.replicas[p])[n] == Unsaved(s.replicas[q])[n])
            && (forall n :: n in Unsaved(s.replicas[p]) && n in s.history ==>
                  Unsaved(s.replicas[p])[n] == s.history[n])
  {
    var s := Run(h, depth, Init(), actions);
    RunKeepsInv(h, depth, Init(), actions);
    assert ReplicaOk(h, depth, s, s.replicas[p]) && ReplicaOk(h, depth, s, s.replicas[q]);
    MirrorsAgree(s.table, s.replicas[p].leaves, s.replicas[q].leaves);
    forall n, row | n in Unsaved(s.replicas[p]) && RootRowOk(h, depth, s.table, n, row)
      ensures row == Unsaved(s.replicas[p])[n]
    {
      RootRowIsUnique(h, depth, s.table, n, row, Unsaved(s.replicas[p])[n]);
    }
  }

  /** Every history row up to a replica's size that it has not pending and did
      not lose itself is on record, whatever the others did. */
  lemma RowsNotLostAreRecorded(h: Hasher, depth: nat, actions: seq<Action>, r: int, n: nat)
    requires var s := Run(h, depth, Init(), actions);
             r in s.replicas && 1 <= n <= |s.replicas[r].leaves| && n !in s.replicas[r].lost && n !in Unsaved(s.replicas[r])
    ensures n in Run(h, depth, Init(), actions).history
  {
    var s := Run(h, depth, Init(), actions);
    RunKeepsInv(h, depth, Init(), actions);
    var rep := s.replicas[r];
    assert ReplicaOk(h, depth, s, rep);
    assert Has(s.history, n) || n in Unsaved(rep) || n in rep.lost;
  }

  ghost predicate NeverRestarts(actions: seq<Action>, r: int) {
    Restart(r) !in actions
  }

  /** The sizes whose rows replicas other than `r` inserted in the run. */
  ghost function OthersRecorded(h: Hasher, depth: nat, s: State, actions: seq<Action>, r: int): set<int> {
    if actions == [] then {}
    else
      var init, a := actions[..|actions| - 1], actions[|actions| - 1];
      var before := Run(h, depth, s, init);
      OthersRecorded(h, depth, s, init, r)
      + if a.Persist? && a.r != r && a.r in before.replicas then Unsaved(before.replicas[a.r]).Keys else {}
  }

  /** What a replica itself has put on record since its restart. */
  ghost predicate Recorded(rep: Replica, n: int) {
    1 <= n <= |rep.leaves| && n !in rep.lost && n !in Unsaved(rep)
  }

  lemma StepRecords(h: Hasher, depth: nat, s: State, a: Action, r: int, n: int)
    requires Inv(h, depth, s) && r in s.replicas && a != Restart(r)
    ensures var s' := Step(h, depth, s, a);
            && r in s'.replicas
            && (Recorded(s'.replicas[r], n) <==> Recorded(s.replicas[r], n) || (a == Persist(r) && n in Unsaved(s.replicas[r])))
  {
    hide TopUp, Anchor, RootRowOk, UniqueCommitments, InsertRow, NotBy, Covers;
    var rep := s.replicas[r];
    assert ReplicaOk(h, depth, s, rep);
    if a == Grow(r) && rep.phase.Fetched? { GrowRecordsNothing(h, depth, s, rep, n); }
  }

  lemma GrowRecordsNothing(h: Hasher, depth: nat, s: State, rep: Replica, n: int)
    requires ReplicaOk(h, depth, s, rep) && rep.phase.Fetched?
    ensures Recorded(GrowReplica(h, depth, rep), n) <==> Recorded(rep, n)
  {
    hide Anchor;
    var snap := rep.phase.snapshot;
    TopUpReachesGap(snap, rep.leaves);
    if |rep.leaves| < n <= |TopUp(snap, rep.leaves).leaves| { assert n - 1 in snap; }
  }

  /** Which rows are on record, after any run since replica `r` restarted: those
      recorded before, those other replicas inserted, and of the sizes `r` has
      grown through exactly those it neither has pending nor lost. */
  lemma {:induction false} RecordIsExact(h: Hasher, depth: nat, s: State, actions: seq<Action>, r: int, n: int)
    requires Inv(h, depth, s) && r in s.replicas && s.replicas[r] == FRESH && NeverRestarts(actions, r)
    ensures var s' := Run(h, depth, s, actions);
            && r in s'.replicas
            && (n in s'.history <==>
                  || n in s.history
                  || n in OthersRecorded(h, depth, s, actions, r)
                  || (1 <= n <= |s'.replicas[r].leaves| && n !in s'.replicas[r].lost && n !in Unsaved(s'.replicas[r])))
  {
    hide Inv, Step;
    if actions != [] {
      var init, a := actions[..|actions| - 1], actions[|actions| - 1];
      var before := Run(h, depth, s, init);
      assert a in actions && forall x :: x in init ==> x in actions;
      RunKeepsInv(h, depth, s, init);
      RecordIsExact(h, depth, s, init, r, n);
      StepRecords(h, depth, before, a, r, n);
      StepHistory(h, depth, before, a, n);
    }
  }

  lemma StepHistory(h: Hasher, depth: nat, s: State, a: Action, n: int)
    ensures n in Step(h, depth, s, a).history <==>
            n in s.history || (a.Persist? && a.r in s.replicas && n in Unsaved(s.replicas[a.r]))
  {}

  lemma {:induction false} OthersLeaveReplicaAlone(h: Hasher, depth: nat, s: State, actions: seq<Action>, r: int)
    requires r in s.replicas
    requires NotBy(actions, r)
    ensures r in Run(h, depth, s, actions).replicas
    ensures Run(h, depth, s, actions).replicas[r] == s.replicas[r]
  {
    if actions != [] {
      OthersLeaveReplicaAlone(h, depth, s, actions[..|actions| - 1], r);
      assert !ActsOn(actions[|actions| - 1], r);
    }
  }

  /** Replica `r` syncs once, while the others do `others` between its query and
      its growth and `others'` before its insert. */
  ghost function BeforePersist(h: Hasher, depth: nat, s: State, r: int, others: seq<Action>, others': seq<Action>): State {
    var fetched := Run(h, depth, Step(h, depth, s, Fetch(r)), others);
    Run(h, depth, Step(h, depth, fetched, Grow(r)), others')
  }

  ghost function Sync(h: Hasher, depth: nat, s: State, r: int, others: seq<Action>, others': seq<Action>): State {
    Step(h, depth, BeforePersist(h, depth, s, r, others, others'), Persist(r))
  }

  lemma SyncKeepsInv(h: Hasher, depth: nat, s: State, r: int, others: seq<Action>, others': seq<Action>)
    requires Inv(h, depth, s)
    ensures Inv(h, depth, BeforePersist(h, depth, s, r, others, others'))
    ensures Inv(h, depth, Sync(h, depth, s, r, others, others'))
    ensures Extends(s.table, Sync(h, depth, s, r, others, others').table)
    ensures forall n :: n in s.history ==> n in BeforePersist(h, depth, s, r, others, others').history
  {
    hide Inv, TopUp;
    var s2 := Step(h, depth, s, Fetch(r));
    var s3 := Run(h, depth, s2, others);
    var s4 := Step(h, depth, s3, Grow(r));
    var s5 := Run(h, depth, s4, others');
    StepKeepsInv(h, depth, s, Fetch(r));
    RunKeepsInv(h, depth, s2, others);
    StepKeepsInv(h, depth, s3, Grow(r));
    RunKeepsInv(h, depth, s4, others');
    StepKeepsInv(h, depth, s5, Persist(r));
    RunOnlyAdds(h, depth, s2, others);
    RunOnlyAdds(h, depth, s4, others');
  }

  /** The replica's own part of a sync, undisturbed by the others. */
  lemma SyncGrows(h: Hasher, depth: nat, s: State, r: int, others: seq<Action>, others': seq<Action>)
    requires r in s.replicas && s.replicas[r].phase.Idle? && NotBy(others, r) && NotBy(others', r)
    ensures var s' := BeforePersist(h, depth, s, r, others, others');
            r in s'.replicas && s'.replicas[r] == GrowReplica(h, depth, s.replicas[r].(phase := Fetched(s.table)))
  {
    hide TopUp, Anchor, GrownRows, NotBy, GrowReplica;
    var s2 := Step(h, depth, s, Fetch(r));
    var s3 := Run(h, depth, s2, others);
    OthersLeaveReplicaAlone(h, depth, s2, others, r);
    OthersLeaveReplicaAlone(h, depth, Step(h, depth, s3, Grow(r)), others', r);
  }

  /** Which rows a sync adds, interleaved with anything the others do: those of
      the sizes beyond the replica's mirror, up to the gap-free prefix at the
      moment of its query, and none at all if it met a corrupt row. */
  lemma SyncRecordsExactly(h: Hasher, depth: nat, s: State, r: int, others: seq<Action>, others': seq<Action>, n: int)
    requires Inv(h, depth, s) && r in s.replicas && s.replicas[r].phase.Idle?
    requires NotBy(others, r) && NotBy(others', r)
    ensures var before, s' := BeforePersist(h, depth, s, r, others, others'), Sync(h, depth, s, r, others, others');
            var mirror, grown := s.replicas[r].leaves, TopUp(s.table, s.replicas[r].leaves);
            && r in s'.replicas && s'.replicas[r].leaves == grown.leaves
            && (n in s'.history <==> n in before.history || (grown.ToGap? && |mirror| < n <= |grown.leaves|))
  {
    hide TopUp, Anchor, NotBy, BeforePersist, RootRowOk, UniqueCommitments, Covers;
    var rep := s.replicas[r];
    assert ReplicaOk(h, depth, s, rep);
    SyncGrows(h, depth, s, r, others, others');
    var grown := TopUp(s.table, rep.leaves);
    TopUpReachesGap(s.table, rep.leaves);
    if |rep.leaves| < n <= |grown.leaves| { assert n - 1 in s.table; }
    assert n in GrownRows(h, depth, s.table, |rep.leaves|, grown.leaves) <==> |rep.leaves| < n <= |grown.leaves|;
    StepHistory(h, depth, BeforePersist(h, depth, s, r, others, others'), Persist(r), n);
  }

  /** Left alone, a sync adds exactly those rows, so a hole below the mirror stays. */
  lemma SyncAlone(h: Hasher, depth: nat, s: State, r: int, n: int)
    requires Inv(h, depth, s) && r in s.replicas && s.replicas[r].phase.Idle?
    ensures var s' := Sync(h, depth, s, r, [], []);
            var mirror, grown := s.replicas[r].leaves, TopUp(s.table, s.replicas[r].leaves);
            n in s'.history <==> n in s.history || (grown.ToGap? && |mirror| < n <= |grown.leaves|)
  {
    hide TopUp, Anchor, GrownRows, Inv;
    SyncRecordsExactly(h, depth, s, r, [], [], n);
  }

  /** A fresh replica heals every hole: from any reachable state, a restart and
      one successful sync, interleaved with anything the others do, leaves it
      with the longest gap-free prefix at the moment of its query and with all
      of that prefix's history rows on record. */
  lemma FreshSyncHeals(h: Hasher, depth: nat, before: seq<Action>, r: int, others: seq<Action>, others': seq<Action>)
    requires NotBy(others, r) && NotBy(others', r)
    requires TopUp(Run(h, depth, Init(), before).table, []).ToGap?
    ensures var s := Run(h, depth, Init(), before);
            var s' := Sync(h, depth, Step(h, depth, s, Restart(r)), r, others, others');
            var leaves := TopUp(s.table, []).leaves;
            && Inv(h, depth, s') && Extends(s.table, s'.table)
            && |leaves| !in s.table && Mirrors(s.table, leaves)
            && r in s'.replicas && s'.replicas[r].leaves == leaves
            && forall n :: 1 <= n <= |leaves| ==>
                 n in s'.history && s'.history[n] == RootRow(Root(h, leaves[..n], depth), s.table[n - 1].ledger)
  {
    hide Sync, TopUp, Run;
    var s := Run(h, depth, Init(), before);
    var s1 := Step(h, depth, s, Restart(r));
    var s' := Sync(h, depth, s1, r, others, others');
    var leaves := TopUp(s.table, []).leaves;
    TopUpReachesGap(s.table, []);
    RunKeepsInv(h, depth, Init(), before);
    StepKeepsInv(h, depth, s, Restart(r));
    SyncKeepsInv(h, depth, s1, r, others, others');
    SyncRecordsExactly(h, depth, s1, r, others, others', 1);
    forall n | 1 <= n <= |leaves|
      ensures n in s'.history && s'.history[n] == RootRow(Root(h, leaves[..n], depth), s.table[n - 1].ledger)
    {
      SyncRecordsExactly(h, depth, s1, r, others, others', n);
      assert RootRowOk(h, depth, s'.table, n, s'.history[n]);
      RootRowOfMirror(h, depth, s'.table, leaves, n, s'.history[n]);
    }
  }

  /** A truthful history never names more leaves than the gap-free prefix has. */
  lemma InvIsTruthful(h: Hasher, depth: nat, s: State)
    requires Inv(h, depth, s)
    ensures TruthfulHistory(h, depth, s.table, s.history, |TopUp(s.table, []).leaves|)
  {
    var leaves := TopUp(s.table, []).leaves;
    TopUpReachesGap(s.table, []);
    assert Intact(s.table, |leaves|);
    forall n | n in s.history ensures n <= |leaves| && RootRowOk(h, depth, s.table, n, s.history[n]) {
      assert RootRowOk(h, depth, s.table, n, s.history[n]);
    }
  }

  /** Historical lookups after such a sync, whatever arrived meanwhile: every
      ledger up to which no more leaves were observed than the sync saw is
      answered with exactly the leaves up to it. */
  lemma HealedHistoryAnswersExactly(
    h: Hasher, depth: nat, before: seq<Action>, r: int, others: seq<Action>, others': seq<Action>, ledger: int, n: int)
    requires NotBy(others, r) && NotBy(others', r)
    requires TopUp(Run(h, depth, Init(), before).table, []).ToGap?
    ensures var s := Run(h, depth, Init(), before);
            var s' := Sync(h, depth, Step(h, depth, s, Restart(r)), r, others, others');
            var seen, size := |TopUp(s.table, []).leaves|, |TopUp(s'.table, []).leaves|;
            && TruthfulHistory(h, depth, s'.table, s'.history, size)
            && (LedgersInOrder(s'.table, size) ==>
                  var c := CountUpTo(s'.table, size, ledger);
                  && (1 <= c <= seen ==> (NewestAtLedger(s'.history, ledger, n) <==> n == c))
                  && (c > seen ==> (NewestAtLedger(s'.history, ledger, n) ==> seen <= n <= c)))
  {
    hide Sync, TopUp, Run, Step, Inv;
    var s := Run(h, depth, Init(), before);
    var s' := Sync(h, depth, Step(h, depth, s, Restart(r)), r, others, others');
    var seen, size := |TopUp(s.table, []).leaves|, |TopUp(s'.table, []).leaves|;
    FreshSyncHeals(h, depth, before, r, others, others');
    InvIsTruthful(h, depth, s');
    if LedgersInOrder(s'.table, size) {
      AtLedgerIsExact(h, depth, s'.table, s'.history, size, ledger, n);
      if seen >= 1 { assert seen in s'.history; }
    }
  }

  lemma RootRowOfMirror(h: Hasher, depth: nat, t: Table, leaves: seq<Node>, n: nat, row: RootRow)
    requires Mirrors(t, leaves) && 1 <= n <= |leaves| && RootRowOk(h, depth, t, n, row)
    ensures row == RootRow(Root(h, leaves[..n], depth), t[n - 1].ledger)
  {
    MirrorsAgree(t, leaves[..n], FirstLeaves(t, n));
    assert FirstLeaves(t, n)[..n] == FirstLeaves(t, n);
  }

  /** The batch the cached tree hands over is the batch of this model. */
  lemma AbsorbedRowsAreGrownRows(h: Hasher, depth: nat, t: Table, from: nat, leaves: seq<Node>, newRoots: seq<NewRoot>)
    requires Mirrors(t, leaves) && from <= |leaves| && |newRoots| == |leaves| - from
    requires IsBatch(h, depth, t, from, newRoots)
    ensures forall n :: n in GrownRows(h, depth, t, from, leaves) <==> from < n <= |leaves|
    ensures forall i :: 0 <= i < |newRoots| ==>
              newRoots[i] == NewRoot(from + i + 1, GrownRows(h, depth, t, from, leaves)[from + i + 1])
  {
    GrownRowsOk(h, depth, t, from, leaves);
    forall n | from < n <= |leaves| ensures n in GrownRows(h, depth, t, from, leaves) {
      assert n - 1 in t;
    }
  }

  /** And holes happen: grow, lose the batch, and the mirror is ahead of the record. */
  lemma LostBatchMakesHole(h: Hasher, depth: nat, row: CommitmentRow, r: int)
    requires row.commitment.Stored32?
    ensures var s := Step(h, depth, Step(h, depth, Init(), Insert(0, row)), Restart(r));
            var s' := Step(h, depth, Step(h, depth, Step(h, depth, s, Fetch(r)), Grow(r)), Abandon(r));
            && r in s'.replicas && s'.replicas[r].leaves == [row.commitment.node] && s'.replicas[r].phase == Idle
            && s'.history == map[] && s'.replicas[r].lost == {1}
  {
    var t := InsertRow(map[], 0, row);
    TopUpTakesRow(t, [], row.commitment.node);
    assert [] + [row.commitment.node] == [row.commitment.node];
    assert TopUp(t, [row.commitment.node]) == ToGap([row.commitment.node]);
  }

  /** Such a hole is reachable with the replica still serving its whole tree:
      sync over one leaf, then grow by a second and lose the batch. */
  lemma LostBatchHidesServedSize(h: Hasher, depth: nat, first: CommitmentRow, second: CommitmentRow, r: int)
    requires first.commitment.Stored32? && second.commitment.Stored32? && first.commitment != second.commitment
    ensures var synced := Sync(h, depth, Run(h, depth, Init(), [Insert(0, first), Restart(r)]), r, [], []);
            var s := Run(h, depth, synced, [Insert(1, second), Fetch(r), Grow(r), Abandon(r)]);
            && r in s.replicas && s.replicas[r].phase.Idle?
            && s.replicas[r].leaves == [first.commitment.node, second.commitment.node]
            && s.history == map[1 := RootRow(Root(h, [first.commitment.node], depth), first.ledger)]
  {
    hide Run, Sync;
    var s1 := Run(h, depth, Init(), [Insert(0, first), Restart(r)]);
    RunTwo(h, depth, Init(), Insert(0, first), Restart(r));
    FirstSync(h, depth, s1, first, r);
    var synced := Sync(h, depth, s1, r, [], []);
    var s2 := Run(h, depth, synced, [Insert(1, second), Fetch(r)]);
    RunTwo(h, depth, synced, Insert(1, second), Fetch(r));
    assert [Insert(1, second), Fetch(r)] + [Grow(r)] + [Abandon(r)] == [Insert(1, second), Fetch(r), Grow(r), Abandon(r)];
    RunSnoc(h, depth, synced, [Insert(1, second), Fetch(r)], Grow(r));
    RunSnoc(h, depth, synced, [Insert(1, second), Fetch(r)] + [Grow(r)], Abandon(r));
    GrowByOne(synced.table[1 := second], [first.commitment.node], second);
    assert synced.table == map[0 := first];
  }

  lemma RunTwo(h: Hasher, depth: nat, s: State, a: Action, b: Action)
    ensures Run(h, depth, s, [a, b]) == Step(h, depth, Step(h, depth, s, a), b)
  {
    assert [a, b] == [] + [a] + [b];
    RunSnoc(h, depth, s, [], a);
    RunSnoc(h, depth, s, [] + [a], b);
  }

  lemma GrowByOne(t: Table, leaves: seq<Node>, row: CommitmentRow)
    requires row.commitment.Stored32? && |leaves| in t && t[|leaves|] == row && |leaves| + 1 !in t
    ensures TopUp(t, leaves) == ToGap(leaves + [row.commitment.node])
  {
    TopUpTakesRow(t, leaves, row.commitment.node);
  }

  lemma FirstSync(h: Hasher, depth: nat, s: State, first: CommitmentRow, r: int)
    requires first.commitment.Stored32? && s == State(map[0 := first], map[], map[r := FRESH])
    ensures var s' := Sync(h, depth, s, r, [], []);
            && s'.table == s.table && s'.history == map[1 := RootRow(Root(h, [first.commitment.node], depth), first.ledger)]
            && r in s'.replicas && s'.replicas[r].leaves == [first.commitment.node] && s'.replicas[r].phase.Idle?
  {
    hide TopUp, Anchor, GrownRows;
    GrowByOne(s.table, [], first);
    assert [] + [first.commitment.node] == [first.commitment.node];
    OneRow(h, depth, s.table, first);
  }

  lemma OneRow(h: Hasher, depth: nat, t: Table, first: CommitmentRow)
    requires t == map[0 := first] && first.commitment.Stored32?
    ensures GrownRows(h, depth, t, 0, [first.commitment.node]) ==
            map[1 := RootRow(Root(h, [first.commitment.node], depth), first.ledger)]
  {
    assert [first.commitment.node][..1] == [first.commitment.node];
  }

  lemma RunSnoc(h: Hasher, depth: nat, s: State, actions: seq<Action>, a: Action)
    ensures Run(h, depth, s, actions + [a]) == Step(h, depth, Run(h, depth, s, actions), a)
  {
    assert (actions + [a])[..|actions|] == actions;
  }
}

/** Historical roots and the disclosure check built on them
    (crates/attesta-api/src/routes/tree.rs, crates/attesta-disclosure/src/main.rs). */
module RootLookup {
  import opened Hashing
  import opened Halving
  import opened MerkleSpec
  import opened Commitments

  /** `WHERE ledger <= $2 ORDER BY leaf_count DESC LIMIT 1`: the answer is row `n`. */
  ghost predicate NewestAtLedger(history: History, ledger: int, n: int) {
    && n in history && history[n].ledger <= ledger
    && forall m :: m in history && history[m].ledger <= ledger ==> m <= n
  }

  /** `WHERE leaf_count <= $2 ORDER BY leaf_count DESC LIMIT 1`: the answer is row `n`. */
  ghost predicate NewestAtLeafCount(history: History, leafCount: int, n: int) {
    n in history && n <= leafCount && forall m :: m in history && m <= leafCount ==> m <= n
  }

  /** The table has `size` leaves in a row, and every history row is true of
      them. Sizes may be missing from the history. */
  ghost predicate TruthfulHistory(h: Hasher, depth: nat, t: Table, history: History, size: nat) {
    && Intact(t, size)
    && forall n :: n in history ==> n <= size && RootRowOk(h, depth, t, n, history[n])
  }

  /** Leaves are indexed in the order the chain produced them. */
  ghost predicate LedgersInOrder(t: Table, size: nat)
    requires Intact(t, size)
  {
    && (forall k :: 0 <= k < size ==> t[k].ledger >= 0)
    && (forall j, k :: 0 <= j < k < size ==> t[j].ledger <= t[k].ledger)
  }

  /** How many of the first `size` leaves were observed at or before `ledger`. */
  ghost function CountUpTo(t: Table, size: nat, ledger: int): (c: nat)
    requires Intact(t, size)
    ensures c <= size
  {
    if size == 0 then 0
    else CountUpTo(t, size - 1, ledger) + if t[size - 1].ledger <= ledger then 1 else 0
  }

  /** In ledger order the counted leaves are the first ones. */
  lemma {:induction false} CountedLeavesAreAPrefix(t: Table, size: nat, ledger: int)
    requires Intact(t, size) && LedgersInOrder(t, size)
    ensures forall k :: 0 <= k < size ==> (t[k].ledger <= ledger <==> k < CountUpTo(t, size, ledger))
  {
    if size != 0 {
      CountedLeavesAreAPrefix(t, size - 1, ledger);
      var c := CountUpTo(t, size - 1, ledger);
      var firstLater := if c < size - 1 then c else size - 1;
      assert t[firstLater].ledger <= t[size - 1].ledger;
    }
  }

  /** What `at_ledger=L` answers, holes in the history included. Exactly the
      first `c` leaves, `c = CountUpTo`, were observed at or before L: the answer
      is the largest recorded size up to `c`, with the root of that many leaves;
      it is `c` itself if and only if that size is on record. */
  lemma AtLedgerIsExact(h: Hasher, depth: nat, t: Table, history: History, size: nat, ledger: int, n: int)
    requires TruthfulHistory(h, depth, t, history, size) && LedgersInOrder(t, size)
    ensures var c := CountUpTo(t, size, ledger);
            && (NewestAtLedger(history, ledger, n) <==> NewestAtLeafCount(history, c, n))
            && (forall k :: 0 <= k < size ==> (k < c <==> t[k].ledger <= ledger))
            && (NewestAtLedger(history, ledger, c) <==> c in history)
            && (NewestAtLedger(history, ledger, n) ==>
                  && 1 <= n <= c && (n == c <==> c in history)
                  && history[n].root == Root(h, FirstLeaves(t, n), depth))
  {
    CountedLeavesAreAPrefix(t, size, ledger);
    var c := CountUpTo(t, size, ledger);
    forall m | m in history ensures history[m].ledger <= ledger <==> m <= c {
      assert RootRowOk(h, depth, t, m, history[m]);
    }
  }

  /** What `at_leaf_count=c` answers, holes included: the largest recorded size
      up to `c`; it is `c`, or all leaves when there are fewer, if and only if
      that size is on record. */
  lemma AtLeafCountIsExact(h: Hasher, depth: nat, t: Table, history: History, size: nat, leafCount: int, n: int)
    requires TruthfulHistory(h, depth, t, history, size)
    ensures var asked := if leafCount <= size then leafCount else size;
            && (NewestAtLeafCount(history, leafCount, asked) <==> asked in history)
            && (NewestAtLeafCount(history, leafCount, n) ==>
                  && 1 <= n <= asked && (n == asked <==> asked in history)
                  && history[n].root == Root(h, FirstLeaves(t, n), depth))
  {
    if n in history { assert RootRowOk(h, depth, t, n, history[n]); }
  }

  // ---------- Disclosure reports ----------

  /** What a report pins: the live root and the ledger of its newest leaf. */
  datatype Report = Report(treeRoot: Node, anchoredLedger: int)

  ghost function Generate(h: Hasher, depth: nat, t: Table, n: nat): Report
    requires Intact(t, n)
  {
    Report(Root(h, FirstLeaves(t, n), depth), Anchor(t, n))
  }

  /** `roots_match` of the verify command when the history answers with row `n`. */
  ghost predicate RootsMatch(report: Report, history: History, n: int)
    requires n in history
  {
    history[n].root == report.treeRoot
  }

  lemma {:induction false} AnchorIsLastLedger(t: Table, n: nat)
    requires Intact(t, n) && LedgersInOrder(t, n)
    ensures Anchor(t, n) == if n == 0 then 0 else t[n - 1].ledger
  {
    if n != 0 {
      AnchorIsLastLedger(t, n - 1);
      if n > 1 { assert t[n - 2].ledger <= t[n - 1].ledger; }
    }
  }

  /** The next leaf after the report was generated landed at the report's own ledger. */
  ghost predicate LandedAtReportLedger(t: Table, n: nat, size: nat, report: Report)
  {
    n < size && n in t && t[n].ledger == report.anchoredLedger
  }

  /** What the check asks for: `c` leaves were observed up to the report's
      ledger, at least the report's own, and exactly those if and only if no
      further leaf landed at that ledger. It is answered with size `c` if and
      only if that size is on record. */
  lemma ReportIsAnswered(
    h: Hasher, depth: nat, t: Table, n: nat, t': Table, history': History, size': nat)
    requires 1 <= n <= size' && Intact(t, n) && Extends(t, t')
    requires TruthfulHistory(h, depth, t', history', size') && LedgersInOrder(t', size')
    ensures var report := Generate(h, depth, t, n);
            var c := CountUpTo(t', size', report.anchoredLedger);
            && n <= c
            && (c == n <==> !LandedAtReportLedger(t', n, size', report))
            && (NewestAtLedger(history', report.anchoredLedger, c) <==> c in history')
            && forall k :: n <= k < size' ==> (k < c <==> t'[k].ledger == report.anchoredLedger)
  {
    var ledger := Anchor(t, n);
    AnchorExtends(t, t', n);
    AnchorIsLastLedger(t', n);
    CountedLeavesAreAPrefix(t', size', ledger);
    assert t'[n - 1].ledger == ledger;
    var c := CountUpTo(t', size', ledger);
    AtLedgerIsExact(h, depth, t', history', size', ledger, c);
    forall k | n <= k < size' ensures k < c <==> t'[k].ledger == ledger {
      assert t'[n - 1].ledger <= t'[k].ledger;
    }
  }

  /** Of the leaves by which sizes `a` and `b` differ, those within capacity are
      the empty leaf. */
  ghost predicate OnlyEmptyBetween(h: Hasher, depth: nat, t: Table, a: nat, b: nat)
  {
    forall k :: (a <= k < b || b <= k < a) && k < Pow2(depth) ==> k in t && t[k].commitment == Stored32(h.emptyLeaf)
  }

  /** The collision two trees over `t` exhibit on the way down to leaf `k`. */
  ghost predicate CollideAt(h: Hasher, depth: nat, t: Table, a: nat, b: nat, k: nat)
  {
    && Intact(t, a) && Intact(t, b)
    && depth > 0 && IsCollision(h, CollisionInTrees(h, FirstLeaves(t, a), FirstLeaves(t, b), depth, k))
  }

  /** Two sizes of one table have the same root if and only if nothing but empty
      leaves came within capacity between them, or a collision is exhibited. */
  lemma SameRootIff(h: Hasher, depth: nat, t: Table, a: nat, b: nat) returns (k: nat)
    requires Intact(t, a) && Intact(t, b)
    ensures OnlyEmptyBetween(h, depth, t, a, b) ==>
              Root(h, FirstLeaves(t, a), depth) == Root(h, FirstLeaves(t, b), depth)
    ensures Root(h, FirstLeaves(t, a), depth) == Root(h, FirstLeaves(t, b), depth) ==>
              OnlyEmptyBetween(h, depth, t, a, b) || CollideAt(h, depth, t, a, b, k)
  {
    var x, y := FirstLeaves(t, a), FirstLeaves(t, b);
    k := 0;
    if OnlyEmptyBetween(h, depth, t, a, b) {
      SameLeavesSameRoot(h, x, y, depth);
    } else {
      k :| (a <= k < b || b <= k < a) && k < Pow2(depth) && t[k].commitment.node != h.emptyLeaf;
      ShiftIsZero(k, depth);
      if Root(h, x, depth) == Root(h, y, depth) { RootBinding(h, x, y, depth, k); }
    }
  }

  /** Of the leaves that landed later at the report's own ledger, those within
      capacity are the empty leaf. */
  ghost predicate OnlyEmptyLanded(h: Hasher, depth: nat, t: Table, n: nat, size: nat, report: Report)
  {
    forall k :: n <= k < size && k < Pow2(depth) && k in t && t[k].ledger == report.anchoredLedger ==>
      t[k].commitment == Stored32(h.emptyLeaf)
  }

  lemma SameLeavesLater(t: Table, t': Table, n: nat)
    requires Intact(t, n) && Extends(t, t')
    ensures Intact(t', n) && FirstLeaves(t', n) == FirstLeaves(t, n)
  {}

  /** When a report over `n` leaves verifies, answered with row `m`. */
  lemma ReportMatchesIff(
    h: Hasher, depth: nat, t: Table, n: nat, t': Table, history': History, size': nat, m: int) returns (k: nat)
    requires 1 <= n <= size' && Intact(t, n) && Extends(t, t')
    requires TruthfulHistory(h, depth, t', history', size') && m in history'
    ensures 1 <= m <= size'
    ensures OnlyEmptyBetween(h, depth, t', m, n) ==> RootsMatch(Generate(h, depth, t, n), history', m)
    ensures RootsMatch(Generate(h, depth, t, n), history', m) ==>
              OnlyEmptyBetween(h, depth, t', m, n) || CollideAt(h, depth, t', m, n, k)
  {
    hide OnlyEmptyBetween, CollideAt, Extends, FirstLeaves;
    assert RootRowOk(h, depth, t', m, history'[m]);
    SameLeavesLater(t, t', n);
    k := SameRootIff(h, depth, t', m, n);
  }

  lemma LandedAreBetween(h: Hasher, depth: nat, t: Table, n: nat, m: nat, size: nat, report: Report)
    requires n <= m <= size && Intact(t, size)
    requires forall k :: n <= k < size ==> (k < m <==> t[k].ledger == report.anchoredLedger)
    ensures OnlyEmptyBetween(h, depth, t, m, n) <==> OnlyEmptyLanded(h, depth, t, n, size, report)
  {}

  /** When a report over `n` leaves still verifies against any later history,
      holes included, answered with row `m`: if and only if nothing but empty
      leaves came within capacity between the two sizes, up to a collision the
      two trees exhibit. When the size the report's ledger asks for is on
      record, those are the leaves that landed later at the report's own
      ledger: without any, the report always verifies. */
  lemma ReportVerifiesIff(
    h: Hasher, depth: nat, t: Table, n: nat, t': Table, history': History, size': nat, m: int) returns (k: nat)
    requires 1 <= n <= size' && Intact(t, n) && Extends(t, t')
    requires TruthfulHistory(h, depth, t', history', size') && LedgersInOrder(t', size')
    requires NewestAtLedger(history', Generate(h, depth, t, n).anchoredLedger, m)
    ensures 1 <= m <= size'
    ensures OnlyEmptyBetween(h, depth, t', m, n) ==> RootsMatch(Generate(h, depth, t, n), history', m)
    ensures RootsMatch(Generate(h, depth, t, n), history', m) ==>
              OnlyEmptyBetween(h, depth, t', m, n) || CollideAt(h, depth, t', m, n, k)
    ensures var report := Generate(h, depth, t, n);
            CountUpTo(t', size', report.anchoredLedger) in history' ==>
              && (OnlyEmptyBetween(h, depth, t', m, n) <==> OnlyEmptyLanded(h, depth, t', n, size', report))
              && (!LandedAtReportLedger(t', n, size', report) ==> m == n && RootsMatch(report, history', m))
  {
    var report := Generate(h, depth, t, n);
    var c := CountUpTo(t', size', report.anchoredLedger);
    k := ReportMatchesIff(h, depth, t, n, t', history', size', m);
    ReportIsAnswered(h, depth, t, n, t', history', size');
    AtLedgerIsExact(h, depth, t', history', size', report.anchoredLedger, m);
    hide CountUpTo, CollideAt, OnlyEmptyLanded, RootsMatch, LandedAtReportLedger, Extends, LedgersInOrder;
    if c in history' { LandedAreBetween(h, depth, t', n, m, size', report); }
  }

  /** And it does fail: of two leaves at one ledger the report knew the first. */
  lemma LedgerContinued(h: Hasher, depth: nat, first: Node, second: Node, ledger: nat) returns (k: nat)
    requires depth > 0 && second != h.emptyLeaf
    ensures var t := map[0 := CommitmentRow(Stored32(first), ledger)];
            var t' := t[1 := CommitmentRow(Stored32(second), ledger)];
            var history' := map[1 := RootRow(Root(h, [first], depth), ledger),
                                2 := RootRow(Root(h, [first, second], depth), ledger)];
            && TruthfulHistory(h, depth, t', history', 2) && LedgersInOrder(t', 2)
            && NewestAtLedger(history', Generate(h, depth, t, 1).anchoredLedger, 2)
            && (!RootsMatch(Generate(h, depth, t, 1), history', 2) || CollideAt(h, depth, t', 2, 1, k))
  {
    var t := map[0 := CommitmentRow(Stored32(first), ledger)];
    var t' := t[1 := CommitmentRow(Stored32(second), ledger)];
    var history' := map[1 := RootRow(Root(h, [first], depth), ledger),
                        2 := RootRow(Root(h, [first, second], depth), ledger)];
    assert FirstLeaves(t', 1) == [first] == FirstLeaves(t, 1) && FirstLeaves(t', 2) == [first, second];
    assert t'[1].commitment.node != h.emptyLeaf && 1 < Pow2(depth);
    assert Anchor(t, 1) == ledger by { assert Anchor(t, 0) == 0; }
    k := SameRootIff(h, depth, t', 2, 1);
  }

  /** A hole fails a report that nothing followed: it was made over two leaves of
      which only the size 1 is on record, and is answered with that. */
  lemma HoleMisleadsReport(h: Hasher, depth: nat, first: Node, second: Node, ledger: nat) returns (k: nat)
    requires depth > 0 && second != h.emptyLeaf
    ensures var t := map[0 := CommitmentRow(Stored32(first), ledger), 1 := CommitmentRow(Stored32(second), ledger + 1)];
            var history := map[1 := RootRow(Root(h, [first], depth), ledger)];
            var report := Generate(h, depth, t, 2);
            && TruthfulHistory(h, depth, t, history, 2) && LedgersInOrder(t, 2)
            && !LandedAtReportLedger(t, 2, 2, report) && NewestAtLedger(history, report.anchoredLedger, 1)
            && (!RootsMatch(report, history, 1) || CollideAt(h, depth, t, 1, 2, k))
  {
    var t := map[0 := CommitmentRow(Stored32(first), ledger), 1 := CommitmentRow(Stored32(second), ledger + 1)];
    assert FirstLeaves(t, 1) == [first];
    assert t[1].commitment.node != h.emptyLeaf && 1 < Pow2(depth);
    AnchorIsLastLedger(t, 2);
    k := SameRootIff(h, depth, t, 1, 2);
  }
}

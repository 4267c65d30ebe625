/** The retention sweeper's loop (crates/attesta-api/src/retention.rs). */
module Retention {
  import opened Mailbox
  import opened Wrappers

  const SWEEP_BATCH := 10_000

  datatype Kind = Claimed | Unclaimed

  /** The predicate of one sweep. */
  predicate Matches(kind: Kind, days: nat, now: int, row: Row) {
    match kind
    case Claimed => row.claimedAt.Some? && row.claimedAt.value < now - days * DAY
    case Unclaimed => row.claimedAt.None? && row.createdAt < now - days * DAY
  }

  /** What a sweep that ran to its end leaves. */
  function Kept(rows: map<Id, Row>, kind: Kind, days: nat, now: int): map<Id, Row> {
    map id | id in rows && !Matches(kind, days, now, rows[id]) :: rows[id]
  }

  /** Going from `rows` to `rows'` up to time `now`, only matching rows were dropped. */
  ghost predicate OnlyDropped(rows: map<Id, Row>, rows': map<Id, Row>, kind: Kind, days: nat, now: int) {
    && (forall id :: id in rows' ==> id in rows && rows'[id] == rows[id])
    && (forall id :: id in rows && id !in rows' ==> Matches(kind, days, now, rows[id]))
  }

  /** What matches once matches ever after. */
  lemma DroppedLater(rows: map<Id, Row>, rows': map<Id, Row>, kind: Kind, days: nat, now: int, now': int)
    requires OnlyDropped(rows, rows', kind, days, now) && now <= now'
    ensures OnlyDropped(rows, rows', kind, days, now')
  {}

  lemma DrainedIsKept(rows: map<Id, Row>, rows': map<Id, Row>, kind: Kind, days: nat, now: int)
    requires OnlyDropped(rows, rows', kind, days, now)
    requires forall id :: id in rows' ==> !Matches(kind, days, now, rows'[id])
    ensures rows' == Kept(rows, kind, days, now)
  {}

  /** `LIMIT`: some of the candidates, as many as there are up to the limit. */
  method PickSome(candidates: set<Id>, limit: nat) returns (batch: set<Id>)
    ensures batch <= candidates
    ensures |batch| == if |candidates| < limit then |candidates| else limit
    ensures |candidates| <= limit ==> batch == candidates
  {
    batch := {};
    var rest := candidates;
    while |batch| < limit && rest != {}
      invariant batch + rest == candidates && batch !! rest
      invariant |batch| + |rest| == |candidates| && |batch| <= limit
      decreases rest
    {
      var id :| id in rest;
      batch, rest := batch + {id}, rest - {id};
    }
  }

  class Deliveries {
    var rows: map<Id, Row>
    /** The database clock; it does not run backwards. */
    var now: int

    constructor (rows: map<Id, Row>, now: int)
      ensures this.rows == rows && this.now == now
    {
      this.rows := rows;
      this.now := now;
    }

    /** One `DELETE ... LIMIT`; the clock may have moved on before it. */
    method DeleteBatch(kind: Kind, days: nat) returns (n: nat)
      modifies this
      ensures old(now) <= now && OnlyDropped(old(rows), rows, kind, days, now)
      ensures |rows| == |old(rows)| - n && n <= 10_000
      ensures n < SWEEP_BATCH ==> forall id :: id in rows ==> !Matches(kind, days, now, rows[id])
    {
      var elapsed: int := *;
      if elapsed > 0 { now := now + elapsed; }
      var candidates := set id | id in rows && Matches(kind, days, now, rows[id]);
      var batch := PickSome(candidates, SWEEP_BATCH);
      ghost var before := rows;
      rows := map id | id in rows && id !in batch :: rows[id];
      assert rows.Keys == before.Keys - batch;
      n := |batch|;
    }

    /** Delete batch after batch until one is short. Rows that do not match are
        untouched; unless a statement fails, no matching row is left. */
    method SweepKind(kind: Kind, days: nat, mayFail: bool) returns (drained: bool)
      modifies this
      ensures !mayFail ==> drained
      ensures old(now) <= now && OnlyDropped(old(rows), rows, kind, days, now)
      ensures drained ==> rows == Kept(old(rows), kind, days, now)
    {
      while true
        invariant old(now) <= now && OnlyDropped(old(rows), rows, kind, days, now)
        decreases |rows|
      {
        var fails: bool := *;
        if mayFail && fails { return false; }
        ghost var before, was := rows, now;
        var n := DeleteBatch(kind, days);
        DroppedLater(old(rows), before, kind, days, was, now);
        if n < SWEEP_BATCH {
          DrainedIsKept(old(rows), rows, kind, days, now);
          return true;
        }
      }
    }

    /** One cycle. Without the lock it does nothing. With it, it changes no row
        and drops only claimed rows whose claim, and unclaimed ones whose
        delivery, lies more than the configured days back, where days of 0 keep
        everything; and unless a statement fails, no row that lay so far back
        when it began is left. */
    method RunCycle(c: Config, lockFree: bool, mayFail: bool) returns (done: bool)
      modifies this
      ensures !lockFree ==> !done && rows == old(rows) && now == old(now)
      ensures lockFree && !mayFail ==> done
      ensures old(now) <= now
      ensures forall id :: id in rows ==> id in old(rows) && rows[id] == old(rows[id])
      ensures forall id :: id in old(rows) && id !in rows ==>
                if old(rows[id]).claimedAt.Some?
                then c.claimedDays > 0 && old(rows[id]).claimedAt.value + c.claimedDays * 86_400 < now
                else c.unclaimedDays > 0 && old(rows[id]).createdAt + c.unclaimedDays * 86_400 < now
      ensures done ==> forall id :: id in rows ==>
                if rows[id].claimedAt.Some?
                then c.claimedDays > 0 ==> rows[id].claimedAt.value + c.claimedDays * 86_400 >= old(now)
                else c.unclaimedDays > 0 ==> rows[id].createdAt + c.unclaimedDays * 86_400 >= old(now)
    {
      if !lockFree { return false; }
      done := true;
      if c.claimedDays > 0 {
        done := SweepKind(Claimed, c.claimedDays, mayFail);
      }
      if c.unclaimedDays > 0 {
        var drained := SweepKind(Unclaimed, c.unclaimedDays, mayFail);
        done := done && drained;
      }
    }
  }
}

/** The credential mailbox: quota, claims and retention, interleaved
    (crates/attesta-api/src/routes/issuer.rs, crates/attesta-api/src/retention.rs,
    migrations/0003_mailbox_lifecycle.sql).

    Every SQL statement is one step. Claims read and then conditionally update;
    deliveries count and then insert; the sweeper deletes batches in between.
  */
module Mailbox {
  import opened Wrappers

  type Id(==, !new)
  type Hash(==, !new)
  type Token = seq<bv8>

  const HOUR := 3_600
  const DAY := 86_400

  datatype Row = Row(issuer: string, tokenHash: Option<Hash>, createdAt: int, claimedAt: Option<int>)

  datatype Status = BadRequest | NotFound | Conflict | Forbidden | NoContent

  datatype Response = Response(id: Id, token: Token, status: Status)

  /** A claimer that has read its row and not updated it yet. */
  datatype Pending = Pending(id: Id, token: Token)

  /** `digest` is SHA-256. A quota or a retention of 0 switches that limit off.
      `inFlight` bounds how many deliveries of one issuer are at any moment
      between their count and their insert: 1 if they come one after another. */
  datatype Config = Config(digest: Token -> Hash, quota: nat, inFlight: nat, claimedDays: nat, unclaimedDays: nat)

  /** `made` remembers every row as it was delivered; only `rows` is the table. */
  datatype State = State(
    now: int,
    rows: map<Id, Row>,
    made: map<Id, Row>,
    admitted: multiset<string>,
    claims: map<int, Pending>,
    log: seq<Response>)

  datatype Action =
    | Tick(seconds: nat)
    | CountDeliveries(issuer: string)
    | InsertDelivery(id: Id, issuer: string, tokenHash: Option<Hash>)
    | AbandonDelivery(issuer: string)
    | ReadForClaim(claimer: int, id: Id, token: Token)
    | UpdateForClaim(claimer: int)
    | Sweep(batch: set<Id>)

  function Init(): State {
    State(0, map[], map[], multiset{}, map[], [])
  }

  /** Deliveries of an issuer created after `from`, up to `to`. */
  function Within(rows: map<Id, Row>, issuer: string, from: int, to: int): set<Id> {
    set id | id in rows && rows[id].issuer == issuer && from < rows[id].createdAt <= to
  }

  /** Deliveries of an issuer in the hour that begins after `t`. */
  ghost function HourCount(rows: map<Id, Row>, issuer: string, t: int): nat {
    |Within(rows, issuer, t, t + HOUR)|
  }

  /** The two predicates of the sweeper. */
  predicate Expired(c: Config, now: int, row: Row) {
    if row.claimedAt.Some? then c.claimedDays > 0 && row.claimedAt.value < now - c.claimedDays * DAY
    else c.unclaimedDays > 0 && row.createdAt < now - c.unclaimedDays * DAY
  }

  /** The answer `claim_delivery` gives after its read, unless it goes on to the update. */
  function ReadAnswer(c: Config, rows: map<Id, Row>, id: Id, token: Token): Option<Status> {
    if |token| == 0 || |token| > 128 then Some(BadRequest)
    else if id !in rows then Some(NotFound)
    else if rows[id].claimedAt.Some? then Some(Conflict)
    else if rows[id].tokenHash != Some(c.digest(token)) then Some(Forbidden)
    else None
  }

  function Step(c: Config, s: State, a: Action): State {
    match a
    case Tick(seconds) => s.(now := s.now + seconds)
    case CountDeliveries(issuer) =>
      if s.admitted[issuer] >= c.inFlight then s  // not such a run
      else if c.quota > 0 && |Within(s.rows, issuer, s.now - HOUR, s.now)| >= c.quota then s  // 429
      else s.(admitted := s.admitted + multiset{issuer})
    case InsertDelivery(id, issuer, tokenHash) =>
      if issuer !in s.admitted || id in s.made then s
      else
        var row := Row(issuer, tokenHash, s.now, None);
        s.(rows := s.rows[id := row], made := s.made[id := row], admitted := s.admitted - multiset{issuer})
    case AbandonDelivery(issuer) => s.(admitted := s.admitted - multiset{issuer})
    case ReadForClaim(claimer, id, token) =>
      if claimer in s.claims then s
      else
        var answer := ReadAnswer(c, s.rows, id, token);
        if answer.Some? then s.(log := s.log + [Response(id, token, answer.value)])
        else s.(claims := s.claims[claimer := Pending(id, token)])
    case UpdateForClaim(claimer) =>
      if claimer !in s.claims then s
      else
        var p := s.claims[claimer];
        var wins := p.id in s.rows && s.rows[p.id].claimedAt.None?;
        s.(rows := if wins then s.rows[p.id := s.rows[p.id].(claimedAt := Some(s.now))] else s.rows,
           claims := s.claims - {claimer},
           log := s.log + [Response(p.id, p.token, if wins then NoContent else Conflict)])
    case Sweep(batch) => s.(rows := Swept(c, s.now, s.rows, batch))
  }

  function Swept(c: Config, now: int, rows: map<Id, Row>, batch: set<Id>): map<Id, Row> {
    map id | id in rows && !(id in batch && Expired(c, now, rows[id])) :: rows[id]
  }

  function Run(c: Config, s: State, actions: seq<Action>): State {
    if actions == [] then s else Step(c, Run(c, s, actions[..|actions| - 1]), actions[|actions| - 1])
  }

  // ---------- Rows and sweeping ----------

  /** A row in the table is the delivered one, claimed later or not at all. */
  ghost predicate RowOk(s: State, id: Id)
    requires id in s.rows
  {
    && id in s.made
    && s.rows[id] == s.made[id].(claimedAt := s.rows[id].claimedAt)
    && (s.rows[id].claimedAt.Some? ==> s.made[id].createdAt <= s.rows[id].claimedAt.value <= s.now)
  }

  /** A delivery that left the table was created over a day ago. */
  ghost predicate MadeOk(s: State, id: Id)
    requires id in s.made
  {
    && s.made[id].createdAt <= s.now
    && (id !in s.rows ==> s.made[id].createdAt < s.now - DAY)
  }

  ghost predicate RowsOk(s: State) {
    && (forall id :: id in s.rows ==> RowOk(s, id))
    && (forall id :: id in s.made ==> MadeOk(s, id))
  }

  lemma ExpiredIsOld(c: Config, now: int, row: Row)
    requires Expired(c, now, row) && (row.claimedAt.Some? ==> row.createdAt <= row.claimedAt.value)
    ensures row.createdAt < now - DAY
  {}

  lemma StepKeepsRow(c: Config, s: State, a: Action, id: Id)
    requires RowsOk(s) && id in Step(c, s, a).rows
    ensures RowOk(Step(c, s, a), id)
  {
    if id in s.rows { assert RowOk(s, id) && MadeOk(s, id); }
  }

  lemma StepKeepsMade(c: Config, s: State, a: Action, id: Id)
    requires RowsOk(s) && id in Step(c, s, a).made
    ensures MadeOk(Step(c, s, a), id)
  {
    if id in s.made { assert MadeOk(s, id); }
    if id in s.rows {
      assert RowOk(s, id);
      if a.Sweep? && Expired(c, s.now, s.rows[id]) { ExpiredIsOld(c, s.now, s.rows[id]); }
    }
  }

  lemma StepKeepsRowsOk(c: Config, s: State, a: Action)
    requires RowsOk(s)
    ensures RowsOk(Step(c, s, a))
  {
    hide Step, RowOk, MadeOk;
    forall id | id in Step(c, s, a).rows ensures RowOk(Step(c, s, a), id) { StepKeepsRow(c, s, a, id); }
    forall id | id in Step(c, s, a).made ensures MadeOk(Step(c, s, a), id) { StepKeepsMade(c, s, a, id); }
  }

  // ---------- Quota ----------

  /** The table still holds everything of the last hour, so counting it counts
      all deliveries ever made. */
  lemma SweepingDoesNotHideQuota(s: State, issuer: string)
    requires RowsOk(s)
    ensures Within(s.rows, issuer, s.now - HOUR, s.now) == Within(s.made, issuer, s.now - HOUR, s.now)
  {
    var visible, all := Within(s.rows, issuer, s.now - HOUR, s.now), Within(s.made, issuer, s.now - HOUR, s.now);
    forall id | id in visible ensures id in all { assert RowOk(s, id); }
    forall id | id in all ensures id in visible {
      assert MadeOk(s, id);
      assert RowOk(s, id);
    }
  }

  /** Every hour's deliveries, and those about to be added to a window that is
      still open, stay within the quota and the concurrency. */
  ghost predicate QuotaOk(c: Config, s: State, issuer: string) {
    && s.admitted[issuer] <= c.inFlight
    && (forall t :: HourCount(s.made, issuer, t) <= c.quota - 1 + c.inFlight)
    && (forall t :: t >= s.now - HOUR ==> HourCount(s.made, issuer, t) + s.admitted[issuer] <= c.quota - 1 + c.inFlight)
  }

  lemma SmallerSet(a: set<Id>, b: set<Id>)
    requires a <= b
    ensures |a| <= |b|
  {
    if a != b {
      var x :| x in b && x !in a;
      SmallerSet(a, b - {x});
    }
  }

  lemma CountKeepsQuota(c: Config, s: State, issuer: string)
    requires c.quota > 0 && RowsOk(s) && QuotaOk(c, s, issuer)
    ensures QuotaOk(c, Step(c, s, CountDeliveries(issuer)), issuer)
  {
    var s' := Step(c, s, CountDeliveries(issuer));
    if s' != s {
      SweepingDoesNotHideQuota(s, issuer);
      forall t | t >= s.now - HOUR
        ensures HourCount(s.made, issuer, t) + s'.admitted[issuer] <= c.quota - 1 + c.inFlight
      {
        var later, recent := Within(s.made, issuer, t, t + HOUR), Within(s.made, issuer, s.now - HOUR, s.now);
        forall id | id in later ensures id in recent { assert MadeOk(s, id); }
        SmallerSet(later, recent);
      }
    }
  }

  lemma InsertKeepsQuota(c: Config, s: State, a: Action, issuer: string)
    requires a.InsertDelivery? && c.quota > 0 && QuotaOk(c, s, issuer)
    ensures QuotaOk(c, Step(c, s, a), issuer)
  {
    var s' := Step(c, s, a);
    if s' != s {
      forall t ensures HourCount(s'.made, issuer, t)
                    <= HourCount(s.made, issuer, t) + if a.issuer == issuer && t < s.now <= t + HOUR then 1 else 0
      {
        InsertCounts(s.made, a.id, Row(a.issuer, a.tokenHash, s.now, None), issuer, t);
      }
    }
  }

  lemma InsertCounts(rows: map<Id, Row>, id: Id, row: Row, issuer: string, t: int)
    requires id !in rows
    ensures HourCount(rows[id := row], issuer, t)
         == HourCount(rows, issuer, t) + if row.issuer == issuer && t < row.createdAt <= t + HOUR then 1 else 0
  {
    var before, after := Within(rows, issuer, t, t + HOUR), Within(rows[id := row], issuer, t, t + HOUR);
    if row.issuer == issuer && t < row.createdAt <= t + HOUR {
      assert after == before + {id};
    } else {
      assert after == before;
    }
  }

  lemma StepKeepsQuota(c: Config, s: State, a: Action, issuer: string)
    requires c.quota > 0 && RowsOk(s) && QuotaOk(c, s, issuer)
    ensures QuotaOk(c, Step(c, s, a), issuer)
  {
    if a.CountDeliveries? && a.issuer == issuer {
      CountKeepsQuota(c, s, issuer);
    } else if a.InsertDelivery? {
      InsertKeepsQuota(c, s, a, issuer);
    }
  }

  lemma {:induction false} RunKeepsQuota(c: Config, actions: seq<Action>, issuer: string)
    requires c.quota > 0 && c.inFlight > 0
    ensures RowsOk(Run(c, Init(), actions)) && QuotaOk(c, Run(c, Init(), actions), issuer)
  {
    if actions == [] {
      forall t ensures HourCount(Init().made, issuer, t) == 0 {
        assert Within(Init().made, issuer, t, t + HOUR) == {};
      }
    } else {
      var s := Run(c, Init(), actions[..|actions| - 1]);
      RunKeepsQuota(c, actions[..|actions| - 1], issuer);
      StepKeepsRowsOk(c, s, actions[|actions| - 1]);
      StepKeepsQuota(c, s, actions[|actions| - 1], issuer);
    }
  }

  /** The sliding quota: in every run, whatever is claimed or swept, every
      half-open hour holds at most `quota - 1 + inFlight` deliveries of an issuer;
      exactly the quota when they are handled one after another. */
  lemma EveryHourKeepsTheQuota(c: Config, actions: seq<Action>, issuer: string, t: int)
    requires c.quota > 0 && c.inFlight > 0
    ensures HourCount(Run(c, Init(), actions).made, issuer, t) <= c.quota - 1 + c.inFlight
    ensures c.inFlight == 1 ==> HourCount(Run(c, Init(), actions).made, issuer, t) <= c.quota
  {
    RunKeepsQuota(c, actions, issuer);
  }

  lemma {:induction false} RunKeepsRowsOk(c: Config, actions: seq<Action>)
    ensures RowsOk(Run(c, Init(), actions))
  {
    if actions != [] {
      RunKeepsRowsOk(c, actions[..|actions| - 1]);
      StepKeepsRowsOk(c, Run(c, Init(), actions[..|actions| - 1]), actions[|actions| - 1]);
    }
  }

  /** When a delivery is admitted, in every reachable state in which the service
      may begin one: if and only if there is no quota or fewer than `quota`
      deliveries of the issuer were ever made in the last 3600 seconds. A
      refusal changes nothing. */
  lemma CountAdmitsIff(c: Config, actions: seq<Action>, issuer: string)
    requires Run(c, Init(), actions).admitted[issuer] < c.inFlight
    ensures var s := Run(c, Init(), actions);
            var s' := Step(c, s, CountDeliveries(issuer));
            var recent := set id | id in s.made && s.made[id].issuer == issuer
                                   && s.now - 3_600 < s.made[id].createdAt <= s.now;
            if c.quota == 0 || |recent| < c.quota
            then s' == s.(admitted := s.admitted + multiset{issuer})
            else s' == s
  {
    hide Run, RowsOk;
    var s := Run(c, Init(), actions);
    RunKeepsRowsOk(c, actions);
    SweepingDoesNotHideQuota(s, issuer);
    var recent := set id | id in s.made && s.made[id].issuer == issuer && s.now - 3_600 < s.made[id].createdAt <= s.now;
    assert recent == Within(s.made, issuer, s.now - HOUR, s.now);
  }

  /** An admitted delivery is stored as it came, unclaimed, with the present
      time, and uses up its admission; nothing else changes. */
  lemma DeliveryIsRecorded(c: Config, s: State, id: Id, issuer: string, tokenHash: Option<Hash>)
    requires issuer in s.admitted && id !in s.made
    ensures var s' := Step(c, s, InsertDelivery(id, issuer, tokenHash));
            && (forall k :: k in s'.rows <==> k in s.rows || k == id)
            && (forall k :: k in s.rows && k != id ==> s'.rows[k] == s.rows[k])
            && s'.rows[id].issuer == issuer && s'.rows[id].tokenHash == tokenHash
            && s'.rows[id].createdAt == s.now && s'.rows[id].claimedAt.None?
            && s'.made == s.made[id := s'.rows[id]]
            && s'.admitted[issuer] == s.admitted[issuer] - 1
            && s'.now == s.now && s'.claims == s.claims && s'.log == s.log
  {}

  /** The first `n` of `ids`. */
  ghost function Firsts(ids: seq<Id>, n: nat): set<Id>
    requires n <= |ids|
  {
    set i | 0 <= i < n :: ids[i]
  }

  ghost predicate Distinct(ids: seq<Id>) {
    forall i, j :: 0 <= i < j < |ids| ==> ids[i] != ids[j]
  }

  lemma FirstsGrow(ids: seq<Id>, n: nat)
    requires Distinct(ids) && n < |ids|
    ensures ids[n] !in Firsts(ids, n) && Firsts(ids, n + 1) == Firsts(ids, n) + {ids[n]}
  {}

  lemma {:induction false} FirstsCount(ids: seq<Id>, n: nat)
    requires Distinct(ids) && n <= |ids|
    ensures |Firsts(ids, n)| == n
  {
    if n != 0 {
      FirstsGrow(ids, n - 1);
      FirstsCount(ids, n - 1);
    }
  }

  /** At time 0, the deliveries made are the first `n` of `ids`, all by `issuer`,
      and `admitted` more are between their count and their insert. */
  ghost predicate At(c: Config, actions: seq<Action>, issuer: string, ids: seq<Id>, n: nat, admitted: nat)
    requires n <= |ids|
  {
    var s := Run(c, Init(), actions);
    && s.now == 0 && s.rows == s.made && s.made.Keys == Firsts(ids, n)
    && (forall id :: id in s.made ==> s.made[id].issuer == issuer && s.made[id].createdAt == 0)
    && s.admitted[issuer] == admitted
  }

  lemma AtStart(c: Config, issuer: string, ids: seq<Id>)
    ensures At(c, [], issuer, ids, 0, 0)
  {}

  lemma AllCounted(rows: map<Id, Row>, issuer: string, from: int, to: int)
    requires forall id :: id in rows ==> rows[id].issuer == issuer && from < rows[id].createdAt <= to
    ensures Within(rows, issuer, from, to) == rows.Keys
  {}

  lemma CountOne(c: Config, actions: seq<Action>, issuer: string, ids: seq<Id>, n: nat, admitted: nat)
    requires Distinct(ids) && n <= |ids| && At(c, actions, issuer, ids, n, admitted)
    requires n < c.quota && admitted < c.inFlight
    ensures At(c, actions + [CountDeliveries(issuer)], issuer, ids, n, admitted + 1)
  {
    hide Run, Within, Distinct, Firsts;
    var s := Run(c, Init(), actions);
    RunSnoc(c, Init(), actions, CountDeliveries(issuer));
    AllCounted(s.rows, issuer, s.now - HOUR, s.now);
    FirstsCount(ids, n);
    assert Step(c, s, CountDeliveries(issuer)) == s.(admitted := s.admitted + multiset{issuer});
  }

  lemma InsertOne(c: Config, actions: seq<Action>, issuer: string, ids: seq<Id>, n: nat, admitted: nat)
    requires Distinct(ids) && n < |ids| && At(c, actions, issuer, ids, n, admitted) && admitted > 0
    ensures At(c, actions + [InsertDelivery(ids[n], issuer, None)], issuer, ids, n + 1, admitted - 1)
  {
    RunSnoc(c, Init(), actions, InsertDelivery(ids[n], issuer, None));
    FirstsGrow(ids, n);
  }

  lemma AllInOneHour(c: Config, actions: seq<Action>, issuer: string, ids: seq<Id>)
    requires Distinct(ids) && At(c, actions, issuer, ids, |ids|, 0)
    ensures HourCount(Run(c, Init(), actions).made, issuer, -1) == |ids|
  {
    AllCounted(Run(c, Init(), actions).made, issuer, -1, HOUR - 1);
    FirstsCount(ids, |ids|);
  }

  /** The bound is attained, whatever the quota and the concurrency: some run
      puts `quota - 1 + inFlight` deliveries of one issuer into one hour. With
      more than one delivery at a time the quota itself is exceeded. */
  lemma HourlyBoundIsTight(c: Config, issuer: string, ids: seq<Id>) returns (actions: seq<Action>)
    requires c.quota > 0 && c.inFlight > 0
    requires Distinct(ids) && |ids| == c.quota - 1 + c.inFlight
    ensures HourCount(Run(c, Init(), actions).made, issuer, -1) == c.quota - 1 + c.inFlight
  {
    hide At, Run, Distinct;
    var n := 0;
    actions := [];
    AtStart(c, issuer, ids);
    while n < c.quota - 1
      invariant n <= c.quota - 1 && At(c, actions, issuer, ids, n, 0)
    {
      CountOne(c, actions, issuer, ids, n, 0);
      actions := actions + [CountDeliveries(issuer)];
      InsertOne(c, actions, issuer, ids, n, 1);
      actions := actions + [InsertDelivery(ids[n], issuer, None)];
      n := n + 1;
    }
    for k := 0 to c.inFlight
      invariant At(c, actions, issuer, ids, n, k)
    {
      CountOne(c, actions, issuer, ids, n, k);
      actions := actions + [CountDeliveries(issuer)];
    }
    for k := 0 to c.inFlight
      invariant At(c, actions, issuer, ids, n + k, c.inFlight - k)
    {
      InsertOne(c, actions, issuer, ids, n + k, c.inFlight - k);
      actions := actions + [InsertDelivery(ids[n + k], issuer, None)];
    }
    AllInOneHour(c, actions, issuer, ids);
  }

  // ---------- Claims ----------

  /** How often delivery `id` was answered with 204. */
  ghost function Wins(log: seq<Response>, id: Id): nat {
    if log == [] then 0
    else
      var r := log[|log| - 1];
      Wins(log[..|log| - 1], id) + if r.id == id && r.status.NoContent? then 1 else 0
  }

  /** The token is the one whose hash the issuer stored at delivery. */
  ghost predicate Authorized(c: Config, made: map<Id, Row>, id: Id, token: Token) {
    id in made && made[id].tokenHash == Some(c.digest(token))
  }

  ghost predicate WinsOk(s: State, id: Id) {
    && Wins(s.log, id) <= 1
    && (id !in s.made ==> Wins(s.log, id) == 0)
    && (id in s.rows ==> (Wins(s.log, id) == 1 <==> s.rows[id].claimedAt.Some?))
  }

  ghost predicate PendingOk(c: Config, s: State) {
    forall k :: k in s.claims ==> Authorized(c, s.made, s.claims[k].id, s.claims[k].token)
  }

  ghost predicate AnswersOk(c: Config, s: State) {
    forall i :: 0 <= i < |s.log| && s.log[i].status.NoContent? ==> Authorized(c, s.made, s.log[i].id, s.log[i].token)
  }

  ghost predicate ClaimsOk(c: Config, s: State) {
    PendingOk(c, s) && AnswersOk(c, s) && forall id :: WinsOk(s, id)
  }

  lemma WinsSnoc(log: seq<Response>, r: Response, id: Id)
    ensures Wins(log + [r], id) == Wins(log, id) + if r.id == id && r.status.NoContent? then 1 else 0
  {
    assert (log + [r])[..|log|] == log;
  }

  lemma StepKeepsWins(c: Config, s: State, a: Action, id: Id)
    requires RowsOk(s) && WinsOk(s, id)
    ensures WinsOk(Step(c, s, a), id)
  {
    hide Wins, Within, ReadAnswer;
    if id in s.rows { assert RowOk(s, id); }
    if a.UpdateForClaim? && a.claimer in s.claims {
      var p := s.claims[a.claimer];
      var wins := p.id in s.rows && s.rows[p.id].claimedAt.None?;
      WinsSnoc(s.log, Response(p.id, p.token, if wins then NoContent else Conflict), id);
    } else if a.ReadForClaim? && ReadAnswer(c, s.rows, a.id, a.token).Some? {
      ReadNeverWins(c, s.rows, a.id, a.token);
      WinsSnoc(s.log, Response(a.id, a.token, ReadAnswer(c, s.rows, a.id, a.token).value), id);
    }
  }

  lemma ReadNeverWins(c: Config, rows: map<Id, Row>, id: Id, token: Token)
    ensures ReadAnswer(c, rows, id, token) != Some(NoContent)
  {}

  /** What is recorded about a delivery when it is made stays. */
  lemma StepKeepsAuthorized(c: Config, s: State, a: Action, id: Id, token: Token)
    requires Authorized(c, s.made, id, token)
    ensures Authorized(c, Step(c, s, a).made, id, token)
  {
    hide Within, ReadAnswer;
  }

  lemma StepKeepsPending(c: Config, s: State, a: Action)
    requires RowsOk(s) && PendingOk(c, s)
    ensures PendingOk(c, Step(c, s, a))
  {
    hide Within;
    var s' := Step(c, s, a);
    forall k | k in s'.claims ensures Authorized(c, s'.made, s'.claims[k].id, s'.claims[k].token) {
      if k in s.claims { StepKeepsAuthorized(c, s, a, s.claims[k].id, s.claims[k].token); }
      else { assert RowOk(s, a.id); }
    }
  }

  lemma StepKeepsAnswers(c: Config, s: State, a: Action)
    requires PendingOk(c, s) && AnswersOk(c, s)
    ensures AnswersOk(c, Step(c, s, a))
  {
    hide Within;
    var s' := Step(c, s, a);
    forall i | 0 <= i < |s'.log| && s'.log[i].status.NoContent?
      ensures Authorized(c, s'.made, s'.log[i].id, s'.log[i].token)
    {
      if i < |s.log| { StepKeepsAuthorized(c, s, a, s.log[i].id, s.log[i].token); }
    }
  }

  lemma StepKeepsClaims(c: Config, s: State, a: Action)
    requires RowsOk(s) && ClaimsOk(c, s)
    ensures ClaimsOk(c, Step(c, s, a))
  {
    hide Step, RowsOk, WinsOk, PendingOk, AnswersOk;
    StepKeepsPending(c, s, a);
    StepKeepsAnswers(c, s, a);
    forall id ensures WinsOk(Step(c, s, a), id) {
      assert WinsOk(s, id);
      StepKeepsWins(c, s, a, id);
    }
  }

  lemma {:induction false} RunKeepsClaims(c: Config, actions: seq<Action>)
    ensures RowsOk(Run(c, Init(), actions)) && ClaimsOk(c, Run(c, Init(), actions))
  {
    if actions != [] {
      var s := Run(c, Init(), actions[..|actions| - 1]);
      RunKeepsClaims(c, actions[..|actions| - 1]);
      StepKeepsRowsOk(c, s, actions[|actions| - 1]);
      StepKeepsClaims(c, s, actions[|actions| - 1]);
    }
  }

  /** The claim protocol, over every interleaving of claimers and sweeper: each
      delivery is answered with 204 at most once, by a caller whose token hashes
      to the hash stored at delivery; a row still in the table is claimed if and
      only if that happened. */
  lemma ClaimsAreSound(c: Config, actions: seq<Action>, id: Id)
    ensures var s := Run(c, Init(), actions);
            && Wins(s.log, id) <= 1
            && (id in s.rows ==> (s.rows[id].claimedAt.Some? <==> Wins(s.log, id) == 1))
            && (forall i :: 0 <= i < |s.log| && s.log[i].status.NoContent? ==>
                  Authorized(c, s.made, s.log[i].id, s.log[i].token))
  {
    RunKeepsClaims(c, actions);
    assert WinsOk(Run(c, Init(), actions), id);
  }

  /** What a claim is answered after its read, exactly: 400 for a token of a
      wrong length, 404 without a row, 409 for a claimed row, 403 for a token
      that does not hash to the stored hash; otherwise it goes on to its update.
      A read changes no row. */
  lemma ClaimIsAnswered(c: Config, s: State, claimer: int, id: Id, token: Token)
    requires claimer !in s.claims
    ensures var s' := Step(c, s, ReadForClaim(claimer, id, token));
            var fits := 0 < |token| <= 128;
            var there := id in s.rows;
            && s'.rows == s.rows && s'.made == s.made && s'.now == s.now
            && (s'.log == s.log + [Response(id, token, BadRequest)] <==> !fits)
            && (s'.log == s.log + [Response(id, token, NotFound)] <==> fits && !there)
            && (s'.log == s.log + [Response(id, token, Conflict)] <==> fits && there && s.rows[id].claimedAt.Some?)
            && (s'.log == s.log + [Response(id, token, Forbidden)] <==>
                  fits && there && s.rows[id].claimedAt.None? && s.rows[id].tokenHash != Some(c.digest(token)))
            && (s'.claims == s.claims[claimer := Pending(id, token)] && s'.log == s.log <==>
                  fits && there && s.rows[id].claimedAt.None? && s.rows[id].tokenHash == Some(c.digest(token)))
  {
    var s' := Step(c, s, ReadForClaim(claimer, id, token));
    assert |s'.log| > |s.log| ==> s'.log[|s.log|] == Response(id, token, ReadAnswer(c, s.rows, id, token).value);
    assert claimer in s'.claims <==> s'.claims != s.claims;
  }

  lemma {:induction false} PendingStays(c: Config, s: State, others: seq<Action>, claimer: int)
    requires claimer in s.claims && UpdateForClaim(claimer) !in others
    ensures claimer in Run(c, s, others).claims && Run(c, s, others).claims[claimer] == s.claims[claimer]
  {
    if others != [] {
      var init, a := others[..|others| - 1], others[|others| - 1];
      assert a in others && forall x :: x in init ==> x in others;
      PendingStays(c, s, init, claimer);
      PendingStaysOnce(c, Run(c, s, init), a, claimer);
    }
  }

  lemma PendingStaysOnce(c: Config, s: State, a: Action, claimer: int)
    requires claimer in s.claims && a != UpdateForClaim(claimer)
    ensures claimer in Step(c, s, a).claims && Step(c, s, a).claims[claimer] == s.claims[claimer]
  {
    hide Within, ReadAnswer;
  }

  /** A claimer that read an unclaimed row and presents the token whose hash is
      stored, with anything done by others before its update: it gets 204 if
      and only if the row is then still there and unclaimed, else 409; and
      `claimed_at` becomes the time of that update. */
  lemma RightfulClaimWinsIff(c: Config, s: State, claimer: int, id: Id, token: Token, others: seq<Action>)
    requires claimer !in s.claims && UpdateForClaim(claimer) !in others
    requires 0 < |token| <= 128 && id in s.rows && s.rows[id].claimedAt.None?
    requires s.rows[id].tokenHash == Some(c.digest(token))
    ensures var before := Run(c, Step(c, s, ReadForClaim(claimer, id, token)), others);
            var s' := Step(c, before, UpdateForClaim(claimer));
            if id in before.rows && before.rows[id].claimedAt.None?
            then && s'.log == before.log + [Response(id, token, NoContent)]
                 && s'.rows == before.rows[id := before.rows[id].(claimedAt := Some(before.now))]
            else s'.log == before.log + [Response(id, token, Conflict)] && s'.rows == before.rows
  {
    var s1 := Step(c, s, ReadForClaim(claimer, id, token));
    ClaimIsAnswered(c, s, claimer, id, token);
    PendingStays(c, s1, others, claimer);
  }

  ghost predicate Disturbs(a: Action, id: Id) {
    a.UpdateForClaim? || (a.Sweep? && id in a.batch)
  }

  lemma {:induction false} RowStays(c: Config, s: State, others: seq<Action>, id: Id)
    requires id in s.rows && id in s.made && forall a :: a in others ==> !Disturbs(a, id)
    ensures id in Run(c, s, others).rows && id in Run(c, s, others).made && Run(c, s, others).rows[id] == s.rows[id]
  {
    if others != [] {
      var init, a := others[..|others| - 1], others[|others| - 1];
      assert a in others && forall x :: x in init ==> x in others;
      RowStays(c, s, init, id);
      RowStaysOnce(c, Run(c, s, init), a, id);
    }
  }

  lemma RowStaysOnce(c: Config, s: State, a: Action, id: Id)
    requires id in s.rows && id in s.made && !Disturbs(a, id)
    ensures id in Step(c, s, a).rows && id in Step(c, s, a).made && Step(c, s, a).rows[id] == s.rows[id]
  {
    hide Within, ReadAnswer;
  }

  /** So a rightful claim that no other claim and no sweep comes before succeeds. */
  lemma RightfulClaimSucceeds(c: Config, actions: seq<Action>, claimer: int, id: Id, token: Token, others: seq<Action>)
    requires var s := Run(c, Init(), actions);
             && claimer !in s.claims && id in s.rows && s.rows[id].claimedAt.None?
             && s.rows[id].tokenHash == Some(c.digest(token))
    requires 0 < |token| <= 128 && forall a :: a in others ==> !Disturbs(a, id)
    ensures var s1 := Step(c, Run(c, Init(), actions), ReadForClaim(claimer, id, token));
            var before := Run(c, s1, others);
            var s' := Step(c, before, UpdateForClaim(claimer));
            && s'.log == before.log + [Response(id, token, NoContent)]
            && id in s'.rows && s'.rows[id].claimedAt == Some(before.now)
  {
    var s := Run(c, Init(), actions);
    RunKeepsRowsOk(c, actions);
    KnownRow(s, id);
    ClaimIsAnswered(c, s, claimer, id, token);
    RowStays(c, Step(c, s, ReadForClaim(claimer, id, token)), others, id);
    RightfulClaimWinsIff(c, s, claimer, id, token, others);
  }

  /** What a sweep of some rows deletes, exactly: of them, the claimed ones whose
      claim and the unclaimed ones whose delivery lies more than the configured
      days of 86,400 seconds back, where days of 0 keep everything. */
  lemma SweepDeletesExactly(c: Config, s: State, batch: set<Id>, id: Id)
    requires id in s.rows
    ensures var s' := Step(c, s, Sweep(batch));
            var row := s.rows[id];
            && (id !in s'.rows <==>
                  && id in batch
                  && (row.claimedAt.Some? ==> c.claimedDays > 0 && row.claimedAt.value + c.claimedDays * 86_400 < s.now)
                  && (row.claimedAt.None? ==> c.unclaimedDays > 0 && row.createdAt + c.unclaimedDays * 86_400 < s.now))
            && (id in s'.rows ==> s'.rows[id] == row)
            && s'.made == s.made && s'.log == s.log && s'.claims == s.claims
  {}

  lemma {:induction false} WinnerInLog(log: seq<Response>, id: Id) returns (i: nat)
    requires Wins(log, id) > 0
    ensures i < |log| && log[i].id == id && log[i].status.NoContent?
  {
    i := |log| - 1;
    if !(log[i].id == id && log[i].status.NoContent?) { i := WinnerInLog(log[..|log| - 1], id); }
  }

  /** A delivery without a stored hash is never claimed. */
  lemma NoHashNeverClaimed(c: Config, actions: seq<Action>, id: Id)
    requires id in Run(c, Init(), actions).rows && Run(c, Init(), actions).rows[id].tokenHash.None?
    ensures Run(c, Init(), actions).rows[id].claimedAt.None?
  {
    RunKeepsClaims(c, actions);
    var s := Run(c, Init(), actions);
    assert WinsOk(s, id) && RowOk(s, id);
    if Wins(s.log, id) > 0 {
      var i := WinnerInLog(s.log, id);
      assert Authorized(c, s.made, s.log[i].id, s.log[i].token);
    }
  }

  lemma StepKeepsClaimedAt(c: Config, s: State, a: Action, id: Id)
    requires RowsOk(s) && id in s.made && (id in s.rows ==> s.rows[id].claimedAt.Some?)
    ensures var s' := Step(c, s, a);
            id in s'.made && (id in s'.rows ==> id in s.rows && s'.rows[id].claimedAt == s.rows[id].claimedAt)
  {
    hide Within, ReadAnswer;
  }

  /** `claimed_at` is set at most once and never changes while the row lives. */
  lemma {:induction false} ClaimedAtIsFinal(c: Config, s: State, after: seq<Action>, id: Id)
    requires RowsOk(s) && id in s.rows && s.rows[id].claimedAt.Some?
    ensures var s' := Run(c, s, after);
            && RowsOk(s') && id in s'.made
            && (id in s'.rows ==> s'.rows[id].claimedAt == s.rows[id].claimedAt)
  {
    hide Step, RowsOk, Run;
    if after == [] {
      RunNothing(c, s);
      KnownRow(s, id);
    } else {
      var init, a := after[..|after| - 1], after[|after| - 1];
      ClaimedAtIsFinal(c, s, init, id);
      StepKeepsRowsOk(c, Run(c, s, init), a);
      StepKeepsClaimedAt(c, Run(c, s, init), a, id);
      RunSnoc(c, s, init, a);
      assert after == init + [a];
    }
  }

  lemma RunNothing(c: Config, s: State)
    ensures Run(c, s, []) == s
  {}

  lemma KnownRow(s: State, id: Id)
    requires RowsOk(s) && id in s.rows
    ensures id in s.made
  {
    assert RowOk(s, id);
  }

  lemma RunSnoc(c: Config, s: State, init: seq<Action>, a: Action)
    ensures Run(c, s, init + [a]) == Step(c, Run(c, s, init), a)
  {
    assert (init + [a])[..|init|] == init;
  }
}

/** Per-IP token buckets with lazy refill and eviction (crates/attesta-api/src/limits.rs).

    Tokens and times are reals. The bucket map is proved equal, decision by
    decision, to a specification that only looks at the log of all calls.
  */
module CallLog {
  type Ip(==, !new)

  /** One `try_acquire` call and its outcome. */
  datatype Call = Call(ip: Ip, at: real, admitted: bool)

  ghost predicate Ordered(log: seq<Call>) {
    forall i, j :: 0 <= i < j < |log| ==> log[i].at <= log[j].at
  }

  /** No call in the log is later than `now`. */
  ghost predicate UpTo(log: seq<Call>, now: real) {
    forall i :: 0 <= i < |log| ==> log[i].at <= now
  }

  /** Admissions of `ip` from the log's call `from` on. */
  ghost function Admissions(log: seq<Call>, ip: Ip, from: nat): nat {
    if |log| <= from then 0
    else Admissions(log[..|log| - 1], ip, from) + Cost(log[|log| - 1], ip)
  }

  ghost function Cost(c: Call, ip: Ip): nat {
    if c.ip == ip && c.admitted then 1 else 0
  }

  ghost function AsReal(n: nat): real {
    n as real
  }

  /** Tokens that `rate` per second bring in `span` seconds. It is the product,
      see `RefillIsProduct`; adding up spares the solver the multiplication. */
  function Refill(rate: nat, span: real): real {
    if rate == 0 then 0.0 else Refill(rate - 1, span) + span
  }

  lemma {:induction false} RefillIsProduct(rate: nat, span: real)
    ensures Refill(rate, span) == rate as real * span
  {
    if rate != 0 { RefillIsProduct(rate - 1, span); }
  }

  lemma {:induction false} RefillAdds(rate: nat, a: real, b: real)
    ensures Refill(rate, a) + Refill(rate, b) == Refill(rate, a + b)
  {
    if rate != 0 { RefillAdds(rate - 1, a, b); }
  }

  lemma {:induction false} RefillGrows(rate: nat, a: real, b: real)
    requires a <= b
    ensures Refill(rate, a) <= Refill(rate, b)
    ensures a >= 0.0 ==> Refill(rate, a) >= 0.0
    ensures rate >= 1 && a >= 1.0 ==> Refill(rate, a) >= 1.0
  {
    if rate != 0 { RefillGrows(rate - 1, a, b); }
  }

  /** Admitting `need` more tokens at `now` keeps every window of the log that
      starts at a call of `ip` within `burst` plus the refill since. */
  ghost predicate WindowsAllow(rate: nat, burst: nat, log: seq<Call>, ip: Ip, now: real, need: real) {
    && need <= burst as real
    && forall j :: 0 <= j < |log| && log[j].ip == ip ==> WindowAllows(rate, burst, log, ip, now, need, j)
  }

  ghost predicate WindowAllows(rate: nat, burst: nat, log: seq<Call>, ip: Ip, now: real, need: real, j: nat)
    requires j < |log|
  {
    AsReal(Admissions(log, ip, j)) + need <= burst as real + Refill(rate, now - log[j].at)
  }

  /** The specification of admission: one more call fits every window. */
  ghost predicate Conforms(rate: nat, burst: nat, log: seq<Call>, ip: Ip, now: real) {
    WindowsAllow(rate, burst, log, ip, now, 1.0)
  }

  /** Every logged decision followed the specification. */
  ghost predicate Lawful(rate: nat, burst: nat, log: seq<Call>) {
    forall k {:trigger LawfulAt(rate, burst, log, k)} :: 0 <= k < |log| ==> LawfulAt(rate, burst, log, k)
  }

  ghost predicate LawfulAt(rate: nat, burst: nat, log: seq<Call>, k: nat)
    requires k < |log|
  {
    log[k].admitted <==> Conforms(rate, burst, log[..k], log[k].ip, log[k].at)
  }

  lemma LawfulPrefix(rate: nat, burst: nat, log: seq<Call>, n: nat)
    requires Lawful(rate, burst, log) && n <= |log|
    ensures Lawful(rate, burst, log[..n])
  {
    forall k: nat | k < n ensures LawfulAt(rate, burst, log[..n], k) {
      assert LawfulAt(rate, burst, log, k);
      assert log[..n][..k] == log[..k];
    }
  }

  function Min(a: real, b: real): real {
    if a < b then a else b
  }

  /** Tokens `ip` has at `now`, recomputed from the whole log. */
  ghost function Level(rate: nat, burst: nat, log: seq<Call>, ip: Ip, now: real): real {
    if log == [] then burst as real
    else
      var c, init := log[|log| - 1], log[..|log| - 1];
      if c.ip != ip then Level(rate, burst, init, ip, now)
      else Min(Level(rate, burst, init, ip, c.at) - AsReal(Cost(c, ip)) + Refill(rate, now - c.at), burst as real)
  }

  lemma AdmissionsSnoc(init: seq<Call>, c: Call, ip: Ip, j: nat)
    requires j <= |init|
    ensures Admissions(init + [c], ip, j) == Admissions(init, ip, j) + Cost(c, ip)
  {
    assert (init + [c])[..|init|] == init;
  }

  /** The window that starts at the last call itself. */
  lemma OwnWindow(rate: nat, burst: nat, init: seq<Call>, c: Call, now: real, need: real)
    ensures WindowAllows(rate, burst, init + [c], c.ip, now, need, |init|) <==>
            need + AsReal(Cost(c, c.ip)) - Refill(rate, now - c.at) <= burst as real
  {
    var refill := Refill(rate, now - c.at);
    AdmissionsSnoc(init, c, c.ip, |init|);
    assert Admissions(init, c.ip, |init|) == 0;
    assert (init + [c])[|init|].at == c.at;
    assert WindowAllows(rate, burst, init + [c], c.ip, now, need, |init|) <==>
           AsReal(Cost(c, c.ip)) + need <= burst as real + refill;
  }

  /** The specification after one more call of another address. */
  lemma OtherCallsDoNotMatter(rate: nat, burst: nat, init: seq<Call>, c: Call, ip: Ip, now: real, need: real)
    requires c.ip != ip
    ensures WindowsAllow(rate, burst, init + [c], ip, now, need) <==> WindowsAllow(rate, burst, init, ip, now, need)
  {
    var log := init + [c];
    forall j | 0 <= j < |init| && init[j].ip == ip
      ensures WindowAllows(rate, burst, log, ip, now, need, j) <==> WindowAllows(rate, burst, init, ip, now, need, j)
    {
      AdmissionsSnoc(init, c, ip, j);
    }
    assert forall j :: 0 <= j < |init| ==> log[j] == init[j];
  }

  /** The specification after one more call of the same address: what must be
      left then is what is asked now, plus the call, minus the refill between. */
  lemma OwnCallShiftsWindows(rate: nat, burst: nat, init: seq<Call>, c: Call, now: real, need: real)
    ensures var need' := need + AsReal(Cost(c, c.ip)) - Refill(rate, now - c.at);
            WindowsAllow(rate, burst, init + [c], c.ip, now, need) <==>
            need <= burst as real && WindowsAllow(rate, burst, init, c.ip, c.at, need')
  {
    var log, ip := init + [c], c.ip;
    var need' := need + AsReal(Cost(c, ip)) - Refill(rate, now - c.at);
    forall j | 0 <= j < |init| && init[j].ip == ip
      ensures WindowAllows(rate, burst, log, ip, now, need, j) <==> WindowAllows(rate, burst, init, ip, c.at, need', j)
    {
      AdmissionsSnoc(init, c, ip, j);
      RefillAdds(rate, now - c.at, c.at - log[j].at);
      assert (now - c.at) + (c.at - log[j].at) == now - log[j].at;
    }
    OwnWindow(rate, burst, init, c, now, need);
    assert forall j :: 0 <= j < |init| ==> log[j] == init[j];
  }

  /** A constant-size bucket computes the minimum over all windows of the whole
      history: it holds `need` tokens if and only if every window allows them. */
  lemma {:induction false} LevelIsMinimumOverWindows(rate: nat, burst: nat, log: seq<Call>, ip: Ip, now: real, need: real)
    ensures Level(rate, burst, log, ip, now) >= need <==> WindowsAllow(rate, burst, log, ip, now, need)
  {
    if log != [] {
      var c, init := log[|log| - 1], log[..|log| - 1];
      assert log == init + [c];
      if c.ip != ip {
        LevelIsMinimumOverWindows(rate, burst, init, ip, now, need);
        OtherCallsDoNotMatter(rate, burst, init, c, ip, now, need);
      } else {
        var need' := need + AsReal(Cost(c, ip)) - Refill(rate, now - c.at);
        LevelIsMinimumOverWindows(rate, burst, init, ip, c.at, need');
        OwnCallShiftsWindows(rate, burst, init, c, now, need);
        assert Level(rate, burst, log, ip, now) ==
               Min(Level(rate, burst, init, ip, c.at) - AsReal(Cost(c, ip)) + Refill(rate, now - c.at), burst as real);
      }
    }
  }
}

module TokenBuckets {
  import opened CallLog

  datatype Bucket = Bucket(tokens: real, lastRefill: real)

  datatype Outcome = Admit | RetryAfter(secs: int)

  /** `Instant::duration_since`, which saturates at zero. */
  function Elapsed(now: real, since: real): real {
    if now > since then now - since else 0.0
  }

  function Refilled(rate: nat, burst: nat, b: Bucket, now: real): real {
    Min(b.tokens + Refill(rate, Elapsed(now, b.lastRefill)), burst as real)
  }

  /** `retain`: full buckets carry no state worth keeping. */
  function Retained(rate: nat, burst: nat, buckets: map<Ip, Bucket>, now: real): map<Ip, Bucket> {
    map ip | ip in buckets && Refilled(rate, burst, buckets[ip], now) < burst as real :: buckets[ip]
  }

  function BucketOr(buckets: map<Ip, Bucket>, ip: Ip, fresh': Bucket): Bucket {
    if ip in buckets then buckets[ip] else fresh'
  }

  const EVICT_ABOVE := 10_000

  /** The map after the opportunistic cleanup. */
  function Cleaned(rate: nat, burst: nat, above: nat, buckets: map<Ip, Bucket>, now: real): map<Ip, Bucket> {
    if |buckets| > above then Retained(rate, burst, buckets, now) else buckets
  }

  /** One call on one bucket. */
  function Acquire(rate: nat, burst: nat, b: Bucket, now: real): (Bucket, bool) {
    var tokens := Refilled(rate, burst, b, now);
    if tokens >= 1.0 then (Bucket(tokens - 1.0, now), true) else (Bucket(tokens, now), false)
  }

  function Ceil(x: real): int {
    -((-x).Floor)
  }

  ghost predicate TokensInRange(burst: nat, buckets: map<Ip, Bucket>) {
    forall ip :: ip in buckets ==> 0.0 <= buckets[ip].tokens <= burst as real
  }

  /** The map means what the log says, for every address and every time from
      the latest call on; a missing bucket means a full one. */
  ghost predicate MeansLog(rate: nat, burst: nat, buckets: map<Ip, Bucket>, log: seq<Call>) {
    forall ip, t :: UpTo(log, t) ==> MeansLogAt(rate, burst, buckets, log, ip, t)
  }

  ghost predicate MeansLogAt(rate: nat, burst: nat, buckets: map<Ip, Bucket>, log: seq<Call>, ip: Ip, t: real) {
    (if ip in buckets then Refilled(rate, burst, buckets[ip], t) else burst as real) == Level(rate, burst, log, ip, t)
  }

  lemma FreshBucketIsFull(rate: nat, burst: nat, now: real)
    ensures Refilled(rate, burst, Bucket(burst as real, now), now) == burst as real
  {
    RefillGrows(rate, 0.0, 0.0);
  }

  /** Refilling at `t` what is full at `now` is full. */
  lemma FullStaysFull(rate: nat, burst: nat, b: Bucket, now: real, t: real)
    requires now <= t && Refilled(rate, burst, b, now) >= burst as real
    ensures Refilled(rate, burst, b, t) == burst as real
  {
    RefillGrows(rate, Elapsed(now, b.lastRefill), Elapsed(t, b.lastRefill));
  }

  lemma MulMonotone(a: real, b: real, r: real)
    requires a <= b && r >= 0.0
    ensures a * r <= b * r
  {}

  /** Evicting full buckets is unobservable. */
  lemma EvictionKeepsMeaning(rate: nat, burst: nat, above: nat, buckets: map<Ip, Bucket>, log: seq<Call>, now: real)
    requires MeansLog(rate, burst, buckets, log) && UpTo(log, now)
    ensures forall ip, t :: t >= now ==> MeansLogAt(rate, burst, Cleaned(rate, burst, above, buckets, now), log, ip, t)
  {
    var cleaned := Cleaned(rate, burst, above, buckets, now);
    forall ip, t | t >= now ensures MeansLogAt(rate, burst, cleaned, log, ip, t) {
      assert MeansLogAt(rate, burst, buckets, log, ip, t);
      if ip in buckets && ip !in cleaned { FullStaysFull(rate, burst, buckets[ip], now, t); }
    }
  }

  lemma RefilledFrom(rate: nat, burst: nat, tokens: real, now: real, t: real)
    requires t >= now
    ensures Refilled(rate, burst, Bucket(tokens, now), t) == Min(tokens + Refill(rate, t - now), burst as real)
  {}

  lemma LevelSnoc(rate: nat, burst: nat, log: seq<Call>, c: Call, i: Ip, t: real)
    ensures Level(rate, burst, log + [c], i, t) ==
            if c.ip != i then Level(rate, burst, log, i, t)
            else Min(Level(rate, burst, log, i, c.at) - AsReal(Cost(c, i)) + Refill(rate, t - c.at), burst as real)
  {
    assert (log + [c])[..|log|] == log;
  }

  /** One call updates the meaning by exactly its log entry. */
  lemma CallKeepsMeaningAt(rate: nat, burst: nat, cleaned: map<Ip, Bucket>, log: seq<Call>, ip: Ip, now: real, i: Ip, t: real)
    requires t >= now
    requires MeansLogAt(rate, burst, cleaned, log, i, t) && MeansLogAt(rate, burst, cleaned, log, ip, now)
    ensures var r := Acquire(rate, burst, BucketOr(cleaned, ip, Bucket(burst as real, now)), now);
            MeansLogAt(rate, burst, cleaned[ip := r.0], log + [Call(ip, now, r.1)], i, t)
  {
    var r := Acquire(rate, burst, BucketOr(cleaned, ip, Bucket(burst as real, now)), now);
    var c := Call(ip, now, r.1);
    FreshBucketIsFull(rate, burst, now);
    LevelSnoc(rate, burst, log, c, i, t);
    RefilledFrom(rate, burst, r.0.tokens, now, t);
  }

  /** The whole call: cleanup, refill, decision. */
  lemma CallMeetsSpecification(rate: nat, burst: nat, above: nat, buckets: map<Ip, Bucket>, log: seq<Call>, ip: Ip, now: real)
    requires UpTo(log, now) && MeansLog(rate, burst, buckets, log)
    ensures var cleaned := Cleaned(rate, burst, above, buckets, now);
            var r := Acquire(rate, burst, BucketOr(cleaned, ip, Bucket(burst as real, now)), now);
            && MeansLog(rate, burst, cleaned[ip := r.0], log + [Call(ip, now, r.1)])
            && (r.1 <==> Conforms(rate, burst, log, ip, now))
  {
    var cleaned := Cleaned(rate, burst, above, buckets, now);
    var r := Acquire(rate, burst, BucketOr(cleaned, ip, Bucket(burst as real, now)), now);
    var log' := log + [Call(ip, now, r.1)];
    EvictionKeepsMeaning(rate, burst, above, buckets, log, now);
    FreshBucketIsFull(rate, burst, now);
    assert MeansLogAt(rate, burst, cleaned, log, ip, now);
    LevelIsMinimumOverWindows(rate, burst, log, ip, now, 1.0);
    forall i, t {:trigger MeansLogAt(rate, burst, cleaned[ip := r.0], log', i, t)} | UpTo(log', t)
      ensures MeansLogAt(rate, burst, cleaned[ip := r.0], log', i, t)
    {
      assert log'[|log|].at <= t;
      CallKeepsMeaningAt(rate, burst, cleaned, log, ip, now, i, t);
    }
  }

  lemma LawfulSnoc(rate: nat, burst: nat, log: seq<Call>, c: Call)
    requires Lawful(rate, burst, log) && (c.admitted <==> Conforms(rate, burst, log, c.ip, c.at))
    ensures Lawful(rate, burst, log + [c])
  {
    var log' := log + [c];
    forall k: nat | k < |log'| ensures LawfulAt(rate, burst, log', k) {
      if k < |log| {
        assert LawfulAt(rate, burst, log, k);
        assert log'[..k] == log[..k];
      } else {
        assert log'[..k] == log;
      }
    }
  }

  lemma OrderedSnoc(log: seq<Call>, c: Call)
    requires Ordered(log + [c])
    ensures Ordered(log) && UpTo(log, c.at)
  {
    var log' := log + [c];
    forall i | 0 <= i < |log| ensures log[i].at <= c.at { assert log'[i].at <= log'[|log|].at; }
    forall i, j | 0 <= i < j < |log| ensures log[i].at <= log[j].at { assert log'[i].at <= log'[j].at; }
  }

  /** A refused caller misses less than one token, and a second brings at least one. */
  lemma RetryIsOneSecond(tokens: real, rate: nat)
    requires 0.0 <= tokens < 1.0 && rate > 0
    ensures Ceil((1.0 - tokens) / rate as real) == 1
  {
    var x := (1.0 - tokens) / rate as real;
    assert x * rate as real == 1.0 - tokens;
    if x > 1.0 { MulMonotone(1.0, x, rate as real); }
    if x <= 0.0 { MulMonotone(x, 0.0, rate as real); }
  }

  lemma RefillInRange(rate: nat, burst: nat, b: Bucket, now: real)
    requires 0.0 <= b.tokens <= burst as real
    ensures 0.0 <= Refilled(rate, burst, b, now) <= burst as real
  {
    RefillGrows(rate, Elapsed(now, b.lastRefill), Elapsed(now, b.lastRefill));
  }

  lemma CallKeepsRange(rate: nat, burst: nat, above: nat, buckets: map<Ip, Bucket>, ip: Ip, now: real)
    requires TokensInRange(burst, buckets)
    ensures var cleaned := Cleaned(rate, burst, above, buckets, now);
            var b := BucketOr(cleaned, ip, Bucket(burst as real, now));
            && 0.0 <= Refilled(rate, burst, b, now)
            && TokensInRange(burst, cleaned[ip := Acquire(rate, burst, b, now).0])
  {
    var cleaned := Cleaned(rate, burst, above, buckets, now);
    RefillInRange(rate, burst, BucketOr(cleaned, ip, Bucket(burst as real, now)), now);
  }

  // ---------- Calls in good time ----------

  ghost predicate Called(log: seq<Call>, ip: Ip) {
    log != [] && (log[|log| - 1].ip == ip || Called(log[..|log| - 1], ip))
  }

  /** The bucket the log prescribes for an address that has called. */
  ghost function Prescribed(rate: nat, burst: nat, log: seq<Call>, ip: Ip): Bucket
    requires Called(log, ip)
  {
    var c, init := log[|log| - 1], log[..|log| - 1];
    if c.ip == ip then Bucket(Level(rate, burst, init, ip, c.at) - AsReal(Cost(c, ip)), c.at)
    else Prescribed(rate, burst, init, ip)
  }

  lemma {:induction false} LevelFromPrescribed(rate: nat, burst: nat, log: seq<Call>, ip: Ip, t: real)
    ensures Called(log, ip) ==>
              var b := Prescribed(rate, burst, log, ip);
              && b.tokens <= burst as real
              && Level(rate, burst, log, ip, t) == Min(b.tokens + Refill(rate, t - b.lastRefill), burst as real)
    ensures !Called(log, ip) ==> Level(rate, burst, log, ip, t) == burst as real
  {
    if log != [] {
      var c := log[|log| - 1];
      LevelFromPrescribed(rate, burst, log[..|log| - 1], ip, if c.ip == ip then c.at else t);
    }
  }

  lemma PrescribedSnoc(rate: nat, burst: nat, log: seq<Call>, c: Call, i: Ip)
    ensures Called(log + [c], i) <==> c.ip == i || Called(log, i)
    ensures Called(log + [c], i) ==>
              Prescribed(rate, burst, log + [c], i) ==
              if c.ip == i then Bucket(Level(rate, burst, log, i, c.at) - AsReal(Cost(c, i)), c.at)
              else Prescribed(rate, burst, log, i)
  {
    assert (log + [c])[..|log|] == log;
  }

  /** Every bucket in the map is the one the log prescribes. */
  ghost predicate Exact(rate: nat, burst: nat, buckets: map<Ip, Bucket>, log: seq<Call>) {
    forall ip :: ip in buckets ==> Called(log, ip) && buckets[ip] == Prescribed(rate, burst, log, ip)
  }

  /** A call comes in good time: not before the last call in its bucket; and if
      it has no bucket, when by its own calls the address is full (again). */
  ghost predicate InGoodTime(rate: nat, burst: nat, cleaned: map<Ip, Bucket>, log: seq<Call>, ip: Ip, now: real) {
    if ip in cleaned then now >= cleaned[ip].lastRefill else Level(rate, burst, log, ip, now) == burst as real
  }

  /** What the call finds is what the log says if and only if it is in good time. */
  lemma FindsLevelIff(rate: nat, burst: nat, cleaned: map<Ip, Bucket>, log: seq<Call>, ip: Ip, now: real)
    requires Exact(rate, burst, cleaned, log)
    ensures var found := Refilled(rate, burst, BucketOr(cleaned, ip, Bucket(burst as real, now)), now);
            && (InGoodTime(rate, burst, cleaned, log, ip, now) ==> found == Level(rate, burst, log, ip, now))
            && (rate >= 1 && found == Level(rate, burst, log, ip, now) ==> InGoodTime(rate, burst, cleaned, log, ip, now))
  {
    FreshBucketIsFull(rate, burst, now);
    LevelFromPrescribed(rate, burst, log, ip, now);
    if ip in cleaned {
      var span := now - cleaned[ip].lastRefill;
      RefillIsProduct(rate, 0.0);
      RefillIsProduct(rate, span);
      if rate >= 1 && span < 0.0 { MulMonotone(1.0, rate as real, -span); }
    }
  }

  /** One call, cleanup included: it leaves exactly the buckets the log
      prescribes if and only if it comes in good time, and then its decision is
      the specification's. */
  lemma CallIsExactIff(rate: nat, burst: nat, above: nat, buckets: map<Ip, Bucket>, log: seq<Call>, ip: Ip, now: real)
    requires Exact(rate, burst, buckets, log)
    ensures var cleaned := Cleaned(rate, burst, above, buckets, now);
            var r := Acquire(rate, burst, BucketOr(cleaned, ip, Bucket(burst as real, now)), now);
            var exact := Exact(rate, burst, cleaned[ip := r.0], log + [Call(ip, now, r.1)]);
            var timely := InGoodTime(rate, burst, cleaned, log, ip, now);
            && (rate >= 1 ==> (exact <==> timely))
            && (timely ==> exact && (r.1 <==> Conforms(rate, burst, log, ip, now)))
  {
    var cleaned := Cleaned(rate, burst, above, buckets, now);
    var r := Acquire(rate, burst, BucketOr(cleaned, ip, Bucket(burst as real, now)), now);
    var c := Call(ip, now, r.1);
    FindsLevelIff(rate, burst, cleaned, log, ip, now);
    LevelIsMinimumOverWindows(rate, burst, log, ip, now, 1.0);
    forall i ensures Called(log + [c], i) <==> c.ip == i || Called(log, i) { PrescribedSnoc(rate, burst, log, c, i); }
    forall i | i in cleaned && i != ip ensures Prescribed(rate, burst, log + [c], i) == Prescribed(rate, burst, log, i) {
      PrescribedSnoc(rate, burst, log, c, i);
    }
    PrescribedSnoc(rate, burst, log, c, ip);
    assert cleaned[ip := r.0][ip] == r.0;
  }

  class IpBuckets {
    const perSec: nat
    const burst: nat
    var buckets: map<Ip, Bucket>
    /** Every limited call so far; the specification speaks about nothing else. */
    ghost var log: seq<Call>
    /** Every call so far came in good time. */
    ghost var exact: bool

    ghost predicate Valid()
      reads this
    {
      && burst >= perSec
      && TokensInRange(burst, buckets)
      && (exact ==> Exact(perSec, burst, buckets, log) && Lawful(perSec, burst, log))
      && (Ordered(log) ==> MeansLog(perSec, burst, buckets, log) && Lawful(perSec, burst, log))
    }

    /** A burst below the sustained rate is raised to it. */
    constructor (perSec: nat, burst: nat)
      ensures Valid() && buckets == map[] && log == [] && exact
      ensures this.perSec == perSec && this.burst == if burst < perSec then perSec else burst
    {
      this.perSec := perSec;
      this.burst := if burst < perSec then perSec else burst;
      buckets := map[];
      log, exact := [], true;
    }

    /** Take one token for `ip`. As long as every call comes in good time, in
        particular while the clock does not run backwards, the answer is the one
        of the log specification: admitted if and only if one more call fits
        every window that starts at an earlier call of the same address. A
        refusal always says to come back after one second. */
    method TryAcquire(ip: Ip, now: real) returns (r: Outcome)
      requires Valid()
      modifies this
      ensures Valid()
      ensures perSec == 0 ==> r.Admit? && buckets == old(buckets) && log == old(log) && exact == old(exact)
      ensures perSec > 0 ==> log == old(log) + [Call(ip, now, r.Admit?)]
      ensures perSec > 0 ==>
                var cleaned := Cleaned(perSec, burst, EVICT_ABOVE, old(buckets), now);
                (exact <==> old(exact) && InGoodTime(perSec, burst, cleaned, old(log), ip, now))
      ensures perSec > 0 && (exact || Ordered(log)) ==> (r.Admit? <==> Conforms(perSec, burst, old(log), ip, now))
      ensures perSec > 0 ==>
                var cleaned := Cleaned(perSec, burst, EVICT_ABOVE, old(buckets), now);
                var a := Acquire(perSec, burst, BucketOr(cleaned, ip, Bucket(burst as real, now)), now);
                buckets == cleaned[ip := a.0] && (r.Admit? <==> a.1)
      ensures r.RetryAfter? ==> r.secs == 1
    {
      if perSec == 0 { return Admit; }
      CallKeepsRange(perSec, burst, EVICT_ABOVE, buckets, ip, now);
      ghost var cleaned := Cleaned(perSec, burst, EVICT_ABOVE, buckets, now);
      ghost var a := Acquire(perSec, burst, BucketOr(cleaned, ip, Bucket(burst as real, now)), now);
      buckets := Cleaned(perSec, burst, EVICT_ABOVE, buckets, now);
      if ip !in buckets {
        buckets := buckets[ip := Bucket(burst as real, now)];
      }
      var tokens := Refilled(perSec, burst, buckets[ip], now);
      if tokens >= 1.0 {
        buckets := buckets[ip := Bucket(tokens - 1.0, now)];
        r := Admit;
      } else {
        buckets := buckets[ip := Bucket(tokens, now)];
        RetryIsOneSecond(tokens, perSec);
        r := RetryAfter(Ceil((1.0 - tokens) / perSec as real));
      }
      assert buckets == cleaned[ip := a.0] && (r.Admit? <==> a.1);
      ghost var c := Call(ip, now, a.1);
      if Ordered(log + [c]) {
        OrderedSnoc(log, c);
        CallMeetsSpecification(perSec, burst, EVICT_ABOVE, old(buckets), log, ip, now);
        LawfulSnoc(perSec, burst, log, c);
      }
      if exact {
        CallIsExactIff(perSec, burst, EVICT_ABOVE, old(buckets), log, ip, now);
        exact := InGoodTime(perSec, burst, cleaned, log, ip, now);
        if exact { LawfulSnoc(perSec, burst, log, c); }
      }
      log := log + [c];
    }
  }

  // ---------- Whole runs ----------

  datatype Request = Request(ip: Ip, at: real)

  /** The bucket map and the log after serving `requests`, cleaning up whenever
      the map holds more than `above` buckets. */
  ghost function Serve(rate: nat, burst: nat, above: nat, requests: seq<Request>): (map<Ip, Bucket>, seq<Call>) {
    if requests == [] then (map[], [])
    else
      var q := requests[|requests| - 1];
      var s := Serve(rate, burst, above, requests[..|requests| - 1]);
      var cleaned := Cleaned(rate, burst, above, s.0, q.at);
      var a := Acquire(rate, burst, BucketOr(cleaned, q.ip, Bucket(burst as real, q.at)), q.at);
      (cleaned[q.ip := a.0], s.1 + [Call(q.ip, q.at, a.1)])
  }

  ghost predicate LogOf(log: seq<Call>, requests: seq<Request>) {
    |log| == |requests| && forall i :: 0 <= i < |log| ==> log[i].ip == requests[i].ip && log[i].at == requests[i].at
  }

  ghost predicate InTime(requests: seq<Request>) {
    forall i, j :: 0 <= i < j < |requests| ==> requests[i].at <= requests[j].at
  }

  /** Every call of the run comes in good time. */
  ghost predicate AllInGoodTime(rate: nat, burst: nat, above: nat, requests: seq<Request>) {
    requests == [] ||
    var init, q := requests[..|requests| - 1], requests[|requests| - 1];
    var s := Serve(rate, burst, above, init);
    && AllInGoodTime(rate, burst, above, init)
    && InGoodTime(rate, burst, Cleaned(rate, burst, above, s.0, q.at), s.1, q.ip, q.at)
  }

  /** All through the run the map holds exactly what the log prescribes. */
  ghost predicate AlwaysExact(rate: nat, burst: nat, above: nat, requests: seq<Request>) {
    && Exact(rate, burst, Serve(rate, burst, above, requests).0, Serve(rate, burst, above, requests).1)
    && (requests != [] ==> AlwaysExact(rate, burst, above, requests[..|requests| - 1]))
  }

  /** A run, cleanups included, keeps exactly the buckets the log prescribes if
      and only if every call comes in good time; then every decision is the
      specification's. */
  lemma {:induction false} RunIsExactIff(rate: nat, burst: nat, above: nat, requests: seq<Request>)
    ensures rate >= 1 ==> (AlwaysExact(rate, burst, above, requests) <==> AllInGoodTime(rate, burst, above, requests))
    ensures LogOf(Serve(rate, burst, above, requests).1, requests)
    ensures AllInGoodTime(rate, burst, above, requests) ==>
              AlwaysExact(rate, burst, above, requests) && Lawful(rate, burst, Serve(rate, burst, above, requests).1)
  {
    if requests != [] {
      var init, q := requests[..|requests| - 1], requests[|requests| - 1];
      RunIsExactIff(rate, burst, above, init);
      var s := Serve(rate, burst, above, init);
      if AllInGoodTime(rate, burst, above, init) {
        CallIsExactIff(rate, burst, above, s.0, s.1, q.ip, q.at);
        if AllInGoodTime(rate, burst, above, requests) {
          LawfulSnoc(rate, burst, s.1, Serve(rate, burst, above, requests).1[|init|]);
        }
      }
    }
  }

  /** Time `t` is not before the latest call of `ip`, nor before a cleanup that
      has dropped its bucket since. */
  ghost predicate NotBefore(rate: nat, burst: nat, above: nat, requests: seq<Request>, ip: Ip, t: real) {
    requests == [] ||
    var init, q := requests[..|requests| - 1], requests[|requests| - 1];
    if q.ip == ip then q.at <= t
    else
      var buckets := Serve(rate, burst, above, init).0;
      && NotBefore(rate, burst, above, init, ip, t)
      && (ip in buckets && ip !in Cleaned(rate, burst, above, buckets, q.at) ==> q.at <= t)
  }

  /** No call is before the latest call of its address, nor before a cleanup
      that has dropped its bucket since. */
  ghost predicate Timely(rate: nat, burst: nat, above: nat, requests: seq<Request>) {
    requests == [] ||
    var init, q := requests[..|requests| - 1], requests[|requests| - 1];
    Timely(rate, burst, above, init) && NotBefore(rate, burst, above, init, q.ip, q.at)
  }

  /** A bucket that a later cleanup finds full is no loss. */
  lemma CleaningKeepsGoodTime(rate: nat, burst: nat, above: nat, buckets: map<Ip, Bucket>, log: seq<Call>, now: real, ip: Ip, t: real)
    requires Exact(rate, burst, buckets, log) && InGoodTime(rate, burst, buckets, log, ip, t)
    requires ip in buckets && ip !in Cleaned(rate, burst, above, buckets, now) ==> now <= t
    ensures InGoodTime(rate, burst, Cleaned(rate, burst, above, buckets, now), log, ip, t)
  {
    if ip in buckets && ip !in Cleaned(rate, burst, above, buckets, now) {
      FullStaysFull(rate, burst, buckets[ip], now, t);
      LevelFromPrescribed(rate, burst, log, ip, t);
      if t == buckets[ip].lastRefill { RefillIsProduct(rate, 0.0); }
    }
  }

  lemma {:induction false} NotBeforeIsInGoodTime(rate: nat, burst: nat, above: nat, requests: seq<Request>, ip: Ip, t: real)
    requires AllInGoodTime(rate, burst, above, requests) && NotBefore(rate, burst, above, requests, ip, t)
    ensures var s := Serve(rate, burst, above, requests); InGoodTime(rate, burst, s.0, s.1, ip, t)
  {
    if requests != [] {
      var init, q := requests[..|requests| - 1], requests[|requests| - 1];
      if q.ip != ip {
        var s := Serve(rate, burst, above, init);
        NotBeforeIsInGoodTime(rate, burst, above, init, ip, t);
        RunIsExactIff(rate, burst, above, init);
        CleaningKeepsGoodTime(rate, burst, above, s.0, s.1, q.at, ip, t);
        LevelSnoc(rate, burst, s.1, Serve(rate, burst, above, requests).1[|init|], ip, t);
      }
    }
  }

  lemma {:induction false} TimelyIsInGoodTime(rate: nat, burst: nat, above: nat, requests: seq<Request>)
    requires Timely(rate, burst, above, requests)
    ensures AllInGoodTime(rate, burst, above, requests)
  {
    if requests != [] {
      var init, q := requests[..|requests| - 1], requests[|requests| - 1];
      var s := Serve(rate, burst, above, init);
      TimelyIsInGoodTime(rate, burst, above, init);
      NotBeforeIsInGoodTime(rate, burst, above, init, q.ip, q.at);
      RunIsExactIff(rate, burst, above, init);
      CleaningKeepsGoodTime(rate, burst, above, s.0, s.1, q.at, q.ip, q.at);
    }
  }

  /** Every decision of a timely run is the specification's, and at every time
      an address may call next its tokens are what the log says. */
  lemma ServedRunIsLawful(rate: nat, burst: nat, above: nat, requests: seq<Request>)
    requires Timely(rate, burst, above, requests)
    ensures var s := Serve(rate, burst, above, requests);
            && LogOf(s.1, requests) && Lawful(rate, burst, s.1)
            && forall ip, t :: NotBefore(rate, burst, above, requests, ip, t) ==> MeansLogAt(rate, burst, s.0, s.1, ip, t)
  {
    var s := Serve(rate, burst, above, requests);
    TimelyIsInGoodTime(rate, burst, above, requests);
    RunIsExactIff(rate, burst, above, requests);
    forall ip, t | NotBefore(rate, burst, above, requests, ip, t) ensures MeansLogAt(rate, burst, s.0, s.1, ip, t) {
      NotBeforeIsInGoodTime(rate, burst, above, requests, ip, t);
      FindsLevelIff(rate, burst, s.0, s.1, ip, t);
    }
  }

  lemma {:induction false} LaterIsNotBefore(rate: nat, burst: nat, above: nat, requests: seq<Request>, ip: Ip, t: real)
    requires forall i :: 0 <= i < |requests| ==> requests[i].at <= t
    ensures NotBefore(rate, burst, above, requests, ip, t)
  {
    if requests != [] { LaterIsNotBefore(rate, burst, above, requests[..|requests| - 1], ip, t); }
  }

  /** A run in the order of its times is timely, whatever it cleans up. */
  lemma {:induction false} InTimeIsTimely(rate: nat, burst: nat, above: nat, requests: seq<Request>)
    requires InTime(requests)
    ensures Timely(rate, burst, above, requests)
  {
    if requests != [] {
      var init, q := requests[..|requests| - 1], requests[|requests| - 1];
      InTimeIsTimely(rate, burst, above, init);
      LaterIsNotBefore(rate, burst, above, init, q.ip, q.at);
    }
  }

  /** The specification leaves no choice: a run has one lawful log. */
  lemma {:induction false} LawfulLogIsUnique(rate: nat, burst: nat, a: seq<Call>, b: seq<Call>, requests: seq<Request>)
    requires Lawful(rate, burst, a) && Lawful(rate, burst, b) && LogOf(a, requests) && LogOf(b, requests)
    ensures a == b
  {
    if requests != [] {
      var n := |requests| - 1;
      LawfulPrefix(rate, burst, a, n);
      LawfulPrefix(rate, burst, b, n);
      assert LawfulAt(rate, burst, a, n) && LawfulAt(rate, burst, b, n);
      LawfulLogIsUnique(rate, burst, a[..n], b[..n], requests[..n]);
      assert a == a[..n] + [a[n]] && b == b[..n] + [b[n]];
    }
  }

  /** Evicting full buckets is unobservable in every timely run over any
      addresses: with any two cleanup thresholds, in particular one the map
      never reaches, every call gets the same answer. */
  lemma EvictionIsUnobservable(rate: nat, burst: nat, above: nat, above': nat, requests: seq<Request>)
    requires Timely(rate, burst, above, requests) && Timely(rate, burst, above', requests)
    ensures Serve(rate, burst, above, requests).1 == Serve(rate, burst, above', requests).1
  {
    ServedRunIsLawful(rate, burst, above, requests);
    ServedRunIsLawful(rate, burst, above', requests);
    LawfulLogIsUnique(rate, burst, Serve(rate, burst, above, requests).1, Serve(rate, burst, above', requests).1, requests);
  }

  ghost function Only(log: seq<Call>, ip: Ip): seq<Call> {
    if log == [] then []
    else Only(log[..|log| - 1], ip) + if log[|log| - 1].ip == ip then [log[|log| - 1]] else []
  }

  lemma {:induction false} LevelIgnoresOthers(rate: nat, burst: nat, log: seq<Call>, ip: Ip, now: real)
    ensures Level(rate, burst, Only(log, ip), ip, now) == Level(rate, burst, log, ip, now)
  {
    if log != [] {
      var init, c := log[..|log| - 1], log[|log| - 1];
      if c.ip == ip {
        LevelIgnoresOthers(rate, burst, init, ip, c.at);
        LevelSnoc(rate, burst, Only(init, ip), c, ip, now);
      } else {
        LevelIgnoresOthers(rate, burst, init, ip, now);
        assert Only(log, ip) == Only(init, ip);
      }
    }
  }

  /** An address is judged by its own calls alone. */
  lemma OwnCallsDecide(rate: nat, burst: nat, log: seq<Call>, ip: Ip, now: real)
    ensures Conforms(rate, burst, log, ip, now) <==> Conforms(rate, burst, Only(log, ip), ip, now)
  {
    LevelIgnoresOthers(rate, burst, log, ip, now);
    LevelIsMinimumOverWindows(rate, burst, log, ip, now, 1.0);
    LevelIsMinimumOverWindows(rate, burst, Only(log, ip), ip, now, 1.0);
  }

  lemma {:induction false} OnlyIsLawful(rate: nat, burst: nat, log: seq<Call>, ip: Ip)
    requires Lawful(rate, burst, log)
    ensures Lawful(rate, burst, Only(log, ip))
  {
    if log != [] {
      var n := |log| - 1;
      var init, c := log[..n], log[n];
      LawfulPrefix(rate, burst, log, n);
      OnlyIsLawful(rate, burst, init, ip);
      if c.ip == ip {
        assert LawfulAt(rate, burst, log, n);
        OwnCallsDecide(rate, burst, init, ip, c.at);
        LawfulSnoc(rate, burst, Only(init, ip), c);
      } else {
        assert Only(log, ip) == Only(init, ip);
      }
    }
  }

  /** The requests of one address. */
  ghost function OnlyFrom(requests: seq<Request>, ip: Ip): seq<Request> {
    if requests == [] then []
    else
      var q := requests[|requests| - 1];
      OnlyFrom(requests[..|requests| - 1], ip) + if q.ip == ip then [q] else []
  }

  lemma {:induction false} OnlyIsLogOf(log: seq<Call>, requests: seq<Request>, ip: Ip)
    requires LogOf(log, requests)
    ensures LogOf(Only(log, ip), OnlyFrom(requests, ip))
  {
    if requests != [] { OnlyIsLogOf(log[..|log| - 1], requests[..|requests| - 1], ip); }
  }

  lemma {:induction false} OnlyNotBefore(rate: nat, burst: nat, above: nat, above': nat, requests: seq<Request>, ip: Ip, t: real)
    requires NotBefore(rate, burst, above, requests, ip, t)
    ensures NotBefore(rate, burst, above', OnlyFrom(requests, ip), ip, t)
  {
    if requests != [] {
      var init, q := requests[..|requests| - 1], requests[|requests| - 1];
      if q.ip == ip {
        assert OnlyFrom(requests, ip)[|OnlyFrom(init, ip)|] == q;
      } else {
        OnlyNotBefore(rate, burst, above, above', init, ip, t);
        assert OnlyFrom(requests, ip) == OnlyFrom(init, ip);
      }
    }
  }

  lemma {:induction false} OnlyTimely(rate: nat, burst: nat, above: nat, above': nat, requests: seq<Request>, ip: Ip)
    requires Timely(rate, burst, above, requests)
    ensures Timely(rate, burst, above', OnlyFrom(requests, ip))
  {
    if requests != [] {
      var init, q := requests[..|requests| - 1], requests[|requests| - 1];
      OnlyTimely(rate, burst, above, above', init, ip);
      if q.ip == ip {
        OnlyNotBefore(rate, burst, above, above', init, ip, q.at);
        assert OnlyFrom(requests, ip)[..|OnlyFrom(init, ip)|] == OnlyFrom(init, ip);
      } else {
        assert OnlyFrom(requests, ip) == OnlyFrom(init, ip);
      }
    }
  }

  /** Addresses cannot influence one another: in every timely run over any
      addresses, each address gets exactly the answers it would have got alone,
      with any cleanup thresholds in the two runs. */
  lemma AddressesAreIndependent(rate: nat, burst: nat, above: nat, above': nat, requests: seq<Request>, ip: Ip)
    requires Timely(rate, burst, above, requests)
    ensures Only(Serve(rate, burst, above, requests).1, ip) == Serve(rate, burst, above', OnlyFrom(requests, ip)).1
  {
    var log, own := Serve(rate, burst, above, requests).1, OnlyFrom(requests, ip);
    ServedRunIsLawful(rate, burst, above, requests);
    OnlyTimely(rate, burst, above, above', requests, ip);
    ServedRunIsLawful(rate, burst, above', own);
    OnlyIsLawful(rate, burst, log, ip);
    OnlyIsLogOf(log, requests, ip);
    LawfulLogIsUnique(rate, burst, Only(log, ip), Serve(rate, burst, above', own).1, own);
  }

  lemma {:induction false} AdmissionsFromNext(log: seq<Call>, ip: Ip, i: nat)
    requires i < |log|
    ensures Admissions(log, ip, i) == Cost(log[i], ip) + Admissions(log, ip, i + 1)
  {
    if i < |log| - 1 { AdmissionsFromNext(log[..|log| - 1], ip, i); }
  }

  ghost function Allowance(rate: nat, burst: nat, span: real): real {
    burst as real + Refill(rate, span)
  }

  lemma AllowanceGrows(rate: nat, burst: nat, span: real, span': real)
    requires 0.0 <= span <= span'
    ensures burst as real <= Allowance(rate, burst, span) <= Allowance(rate, burst, span')
  {
    RefillGrows(rate, span, span');
  }

  lemma ConformingWindow(rate: nat, burst: nat, before: seq<Call>, ip: Ip, now: real, i: nat)
    requires Conforms(rate, burst, before, ip, now) && i < |before| && before[i].ip == ip
    ensures AsReal(Admissions(before, ip, i) + 1) <= Allowance(rate, burst, now - before[i].at)
  {
    assert WindowAllows(rate, burst, before, ip, now, 1.0, i);
  }

  /** The promised rate: between any two calls, by whomever, at most `burst`
      plus the refill of the time between them is admitted for one address. */
  lemma {:induction false} AdmissionsAreBounded(rate: nat, burst: nat, log: seq<Call>, ip: Ip, i: nat, k: nat)
    requires Lawful(rate, burst, log) && Ordered(log) && burst >= 1
    requires i <= k < |log|
    ensures AsReal(Admissions(log[..k + 1], ip, i)) <= Allowance(rate, burst, log[k].at - log[i].at)
    decreases k - i
  {
    var upto := log[..k + 1];
    assert upto == log[..k] + [log[k]];
    AdmissionsSnoc(log[..k], log[k], ip, i);
    AllowanceGrows(rate, burst, 0.0, log[k].at - log[i].at);
    if i == k {
      assert Admissions(log[..k], ip, i) == 0;
    } else if log[i].ip != ip {
      AdmissionsFromNext(upto, ip, i);
      AdmissionsAreBounded(rate, burst, log, ip, i + 1, k);
      AllowanceGrows(rate, burst, log[k].at - log[i + 1].at, log[k].at - log[i].at);
    } else if Cost(log[k], ip) == 1 {
      assert LawfulAt(rate, burst, log, k);
      ConformingWindow(rate, burst, log[..k], ip, log[k].at, i);
    } else {
      AdmissionsAreBounded(rate, burst, log, ip, i, k - 1);
      AllowanceGrows(rate, burst, log[k - 1].at - log[i].at, log[k].at - log[i].at);
    }
  }

  lemma {:induction false} LevelIsNonNegative(rate: nat, burst: nat, log: seq<Call>, ip: Ip, now: real)
    requires Lawful(rate, burst, log) && Ordered(log) && UpTo(log, now)
    ensures Level(rate, burst, log, ip, now) >= 0.0
  {
    if log != [] {
      var n := |log| - 1;
      var init, c := log[..n], log[n];
      LawfulPrefix(rate, burst, log, n);
      if c.ip == ip {
        assert LawfulAt(rate, burst, log, n);
        LevelIsNonNegative(rate, burst, init, ip, c.at);
        LevelIsMinimumOverWindows(rate, burst, init, ip, c.at, 1.0);
        assert c.admitted ==> Level(rate, burst, init, ip, c.at) >= 1.0;
        assert log == init + [c];
        LevelSnoc(rate, burst, init, c, ip, now);
        RefillGrows(rate, now - c.at, now - c.at);
      } else {
        LevelIsNonNegative(rate, burst, init, ip, now);
      }
    }
  }

  /** Coming back as told works: a second or more after a refusal, with no call
      of the same address in between, the call is admitted. */
  lemma RetryAfterASecondSucceeds(rate: nat, burst: nat, log: seq<Call>, others: seq<Call>, ip: Ip, refused: real, now: real)
    requires rate >= 1 && burst >= rate
    requires Lawful(rate, burst, log) && Ordered(log) && UpTo(log, refused)
    requires forall c :: c in others ==> c.ip != ip
    requires now >= refused + 1.0
    ensures Conforms(rate, burst, log + [Call(ip, refused, false)] + others, ip, now)
  {
    var refusedLog := log + [Call(ip, refused, false)];
    LevelIsNonNegative(rate, burst, log, ip, refused);
    LevelSnoc(rate, burst, log, Call(ip, refused, false), ip, now);
    RefillGrows(rate, now - refused, now - refused);
    assert Level(rate, burst, refusedLog, ip, now) >= 1.0;
    OthersKeepLevel(rate, burst, refusedLog, others, ip, now);
    LevelIsMinimumOverWindows(rate, burst, refusedLog + others, ip, now, 1.0);
  }

  lemma {:induction false} OthersKeepLevel(rate: nat, burst: nat, log: seq<Call>, others: seq<Call>, ip: Ip, now: real)
    requires forall c :: c in others ==> c.ip != ip
    ensures Level(rate, burst, log + others, ip, now) == Level(rate, burst, log, ip, now)
  {
    if others == [] {
      assert log + others == log;
    } else {
      var init, c := others[..|others| - 1], others[|others| - 1];
      assert c in others && log + others == log + init + [c];
      OthersKeepLevel(rate, burst, log, init, ip, now);
      LevelSnoc(rate, burst, log + init, c, ip, now);
    }
  }

  // ---------- A clock that runs backwards ----------

  /** What a bucket holds at `t` after a call at `now` if every stretch of time
      is counted once, whatever the order of the two. */
  ghost function CountedOnce(rate: nat, burst: nat, b: Bucket, now: real, t: real): real {
    var after := Acquire(rate, burst, b, now).0.tokens;
    var counted := if now < b.lastRefill then b.lastRefill else now;
    Min(after + Refill(rate, t - counted), burst as real)
  }

  ghost predicate CountsOnceAt(rate: nat, burst: nat, b: Bucket, now: real, t: real) {
    Refilled(rate, burst, Acquire(rate, burst, b, now).0, t) == CountedOnce(rate, burst, b, now, t)
  }

  /** From the latest of the two times on, the bucket counts no time twice. */
  ghost predicate CountsOnce(rate: nat, burst: nat, b: Bucket, now: real) {
    forall t :: t >= now && t >= b.lastRefill ==> CountsOnceAt(rate, burst, b, now, t)
  }

  /** A call leaves a bucket that counts no time twice if and only if it is not
      earlier than the bucket's last call. */
  lemma RefillsOnceIffClockForward(rate: nat, burst: nat, b: Bucket, now: real)
    requires 1 <= rate <= burst
    ensures CountsOnce(rate, burst, b, now) <==> now >= b.lastRefill
  {
    RefillIsProduct(rate, 0.0);
    if now >= b.lastRefill {
      forall t | t >= now && t >= b.lastRefill ensures CountsOnceAt(rate, burst, b, now, t) {
        assert t == now ==> t - now == 0.0;
      }
    } else {
      var t, after := b.lastRefill, Acquire(rate, burst, b, now).0.tokens;
      assert after < burst as real;
      RefillIsProduct(rate, t - now);
      MulMonotone(1.0, rate as real, t - now);
      assert t - t == 0.0 && CountedOnce(rate, burst, b, now, t) == after;
      assert !CountsOnceAt(rate, burst, b, now, t);
    }
  }

  lemma ServeSnoc(rate: nat, burst: nat, above: nat, requests: seq<Request>, q: Request)
    ensures var s := Serve(rate, burst, above, requests);
            var cleaned := Cleaned(rate, burst, above, s.0, q.at);
            var a := Acquire(rate, burst, BucketOr(cleaned, q.ip, Bucket(burst as real, q.at)), q.at);
            Serve(rate, burst, above, requests + [q]) == (cleaned[q.ip := a.0], s.1 + [Call(q.ip, q.at, a.1)])
  {
    assert (requests + [q])[..|requests|] == requests;
  }

  /** And it happens: a service at rate 1 and burst 1 that is called at times
      10, 0 and 10 admits two calls at time 10, against the specification. */
  lemma BackwardClockRefillsTwice(ip: Ip)
    ensures Serve(1, 1, EVICT_ABOVE, [Request(ip, 10.0)] + [Request(ip, 0.0)] + [Request(ip, 10.0)]).1
         == [Call(ip, 10.0, true), Call(ip, 0.0, false), Call(ip, 10.0, true)]
    ensures !Lawful(1, 1, [Call(ip, 10.0, true), Call(ip, 0.0, false), Call(ip, 10.0, true)])
  {
    hide Serve, Acquire, Cleaned, Lawful;
    var q, r := Request(ip, 10.0), Request(ip, 0.0);
    var spent, late := map[ip := Bucket(0.0, 10.0)], map[ip := Bucket(0.0, 0.0)];
    EmptyAtTen(ip);
    ServeSnoc(1, 1, EVICT_ABOVE, [], q);
    assert [] + [q] == [q] && [] + [Call(ip, 10.0, true)] == [Call(ip, 10.0, true)];
    assert Serve(1, 1, EVICT_ABOVE, [q]) == (spent, [Call(ip, 10.0, true)]);
    ServeSnoc(1, 1, EVICT_ABOVE, [q], r);
    assert spent[ip := Bucket(0.0, 0.0)] == late;
    ServeSnoc(1, 1, EVICT_ABOVE, [q] + [r], q);
    SecondCallAtTenIsUnlawful(ip);
  }

  /** The three calls on the one bucket. */
  lemma EmptyAtTen(ip: Ip)
    ensures Serve(1, 1, EVICT_ABOVE, []) == (map[], []) && map[][ip := Bucket(0.0, 10.0)] == map[ip := Bucket(0.0, 10.0)]
    ensures Acquire(1, 1, Bucket(1.0, 10.0), 10.0) == (Bucket(0.0, 10.0), true)
    ensures Acquire(1, 1, Bucket(0.0, 10.0), 0.0) == (Bucket(0.0, 0.0), false)
    ensures Acquire(1, 1, Bucket(0.0, 0.0), 10.0).1
    ensures forall b: Bucket, now :: Cleaned(1, 1, EVICT_ABOVE, map[ip := b], now) == map[ip := b]
    ensures forall now :: Cleaned(1, 1, EVICT_ABOVE, map[], now) == map[]
  {
    RefillIsProduct(1, 10.0);
    RefillIsProduct(1, 0.0);
    assert forall b: Bucket :: |map[ip := b]| == 1;
  }

  lemma SecondCallAtTenIsUnlawful(ip: Ip)
    ensures !Lawful(1, 1, [Call(ip, 10.0, true), Call(ip, 0.0, false), Call(ip, 10.0, true)])
  {
    var before := [Call(ip, 10.0, true), Call(ip, 0.0, false)];
    var log := [Call(ip, 10.0, true), Call(ip, 0.0, false), Call(ip, 10.0, true)];
    assert before[..1] == [Call(ip, 10.0, true)];
    assert Admissions(before[..1], ip, 0) == 1;
    assert Admissions(before, ip, 0) == 1;
    assert !WindowAllows(1, 1, before, ip, 10.0, 1.0, 0);
    assert log[..2] == before && !LawfulAt(1, 1, log, 2);
  }

  /** Calls of `ips`, one each, at time 10. */
  ghost function CallsAtTen(ips: seq<Ip>): (requests: seq<Request>)
    ensures |requests| == |ips|
  {
    seq(|ips|, i requires 0 <= i < |ips| => Request(ips[i], 10.0))
  }

  ghost predicate Distinct(ips: seq<Ip>) {
    forall i, j :: 0 <= i < j < |ips| ==> ips[i] != ips[j]
  }

  /** `ips` are the addresses of the map, each with an empty bucket of time 10. */
  ghost predicate Spent(buckets: map<Ip, Bucket>, ips: seq<Ip>) {
    && |buckets| == |ips|
    && (forall ip :: ip in buckets <==> ip in ips)
    && (forall ip :: ip in buckets ==> buckets[ip] == Bucket(0.0, 10.0))
  }

  lemma SpentSnoc(buckets: map<Ip, Bucket>, ips: seq<Ip>, ip: Ip)
    requires Spent(buckets, ips) && ip !in ips
    ensures Spent(buckets[ip := Bucket(0.0, 10.0)], ips + [ip])
  {
    assert (buckets[ip := Bucket(0.0, 10.0)]).Keys == buckets.Keys + {ip};
  }

  lemma SpentBuckets(buckets: map<Ip, Bucket>, ips: seq<Ip>, ip: Ip)
    requires Spent(buckets, ips)
    ensures |buckets| == |ips| && (ip in buckets <==> ip in ips)
  {}

  lemma CallsAtTenSnoc(ips: seq<Ip>, ip: Ip)
    ensures CallsAtTen(ips + [ip]) == CallsAtTen(ips) + [Request(ip, 10.0)]
  {}

  lemma SpentIsCleaned(above: nat, buckets: map<Ip, Bucket>, ips: seq<Ip>)
    requires Spent(buckets, ips) && |ips| > above
    ensures Cleaned(1, 1, above, buckets, 20.0) == map[]
  {
    RefillIsProduct(1, 10.0);
    forall ip | ip in buckets ensures Refilled(1, 1, buckets[ip], 20.0) == 1.0 {
      assert Elapsed(20.0, buckets[ip].lastRefill) == 10.0;
    }
  }

  lemma FreshCallIsAdmitted(now: real)
    ensures Acquire(1, 1, Bucket(1.0, now), now) == (Bucket(0.0, now), true)
  {
    FreshBucketIsFull(1, 1, now);
  }

  /** At rate and burst 1 each address at time 10 is admitted and left empty. */
  lemma {:induction false} AllSpentAtTen(above: nat, ips: seq<Ip>)
    requires Distinct(ips) && |ips| <= above + 1
    ensures var s := Serve(1, 1, above, CallsAtTen(ips));
            && Spent(s.0, ips)
            && |s.1| == |ips| && forall i :: 0 <= i < |ips| ==> s.1[i] == Call(ips[i], 10.0, true)
  {
    if ips != [] {
      hide Serve, Acquire, Spent, CallsAtTen, Retained;
      var init, ip := ips[..|ips| - 1], ips[|ips| - 1];
      AllSpentAtTen(above, init);
      CallsAtTenSnoc(init, ip);
      assert ips == init + [ip];
      ServeSnoc(1, 1, above, CallsAtTen(init), Request(ip, 10.0));
      FreshCallIsAdmitted(10.0);
      SpentBuckets(Serve(1, 1, above, CallsAtTen(init)).0, init, ip);
      SpentSnoc(Serve(1, 1, above, CallsAtTen(init)).0, init, ip);
    }
  }

  /** A clock that runs backwards between two addresses is enough, at every
      threshold: `above + 1` addresses call at 10, another one at 20, whose
      cleanup drops them all as full, and the first again at 10.5, later than
      its own call. It is admitted, against the specification. */
  lemma CleanupForgetsTooEarly(above: nat, ips: seq<Ip>, other: Ip)
    requires Distinct(ips) && |ips| == above + 1 && other !in ips
    ensures var run := CallsAtTen(ips) + [Request(other, 20.0)] + [Request(ips[0], 10.5)];
            var log := Serve(1, 1, above, run).1;
            && |log| == |ips| + 2 && log[0] == Call(ips[0], 10.0, true) && log[|ips| + 1] == Call(ips[0], 10.5, true)
            && !Lawful(1, 1, log)
  {
    hide Serve, Acquire, Lawful, Distinct;
    var a, first := ips[0], CallsAtTen(ips);
    AllSpentAtTen(above, ips);
    ServeSnoc(1, 1, above, first, Request(other, 20.0));
    SpentIsCleaned(above, Serve(1, 1, above, first).0, ips);
    FreshCallIsAdmitted(20.0);
    ServeSnoc(1, 1, above, first + [Request(other, 20.0)], Request(a, 10.5));
    assert a in ips;
    FreshCallIsAdmitted(10.5);
    EarlyAgainIsUnlawful(Serve(1, 1, above, first + [Request(other, 20.0)]).1, a);
  }

  lemma EarlyAgainIsUnlawful(before: seq<Call>, a: Ip)
    requires before != [] && before[0] == Call(a, 10.0, true)
    ensures !Lawful(1, 1, before + [Call(a, 10.5, true)])
  {
    var log := before + [Call(a, 10.5, true)];
    AdmissionsFromNext(before, a, 0);
    RefillIsProduct(1, 0.5);
    assert 10.5 - before[0].at == 0.5;
    assert !WindowAllows(1, 1, before, a, 10.5, 1.0, 0);
    assert log[..|before|] == before && !LawfulAt(1, 1, log, |before|);
  }
}

/** Concurrent-SSE accounting (crates/attesta-api/src/limits.rs): a global atomic
    and a mutex-guarded map, updated one after the other. */
module SlotProtocol {
  import opened CallLog

  /** `inFlight` bounds how many acquirers are at any moment past the check of
      the global count and not yet in it. A cap of 0 is off. */
  datatype Caps = Caps(perIp: nat, total: nat, inFlight: nat)

  /** `checked`, `counted`, `held` and `dropping` say, per address, how many
      connections are after which atomic step of `try_acquire` or `drop`. */
  datatype State = State(
    total: int,
    perIp: map<Ip, int>,
    checked: multiset<Ip>,
    counted: multiset<Ip>,
    held: multiset<Ip>,
    dropping: multiset<Ip>)

  datatype Action =
    | Check(ip: Ip)        // reads the global count
    | CountIp(ip: Ip)      // under the lock: the per-address count
    | AddGlobal(ip: Ip)
    | SubGlobal(ip: Ip)    // drop begins
    | UncountIp(ip: Ip)    // drop ends, under the lock

  function Init(): State {
    State(0, map[], multiset{}, multiset{}, multiset{}, multiset{})
  }

  function CountOf(perIp: map<Ip, int>, ip: Ip): int {
    if ip in perIp then perIp[ip] else 0
  }

  /** The decrement of `drop`: an address without connections is forgotten. */
  function Uncounted(perIp: map<Ip, int>, ip: Ip): map<Ip, int> {
    if ip !in perIp then perIp
    else if perIp[ip] - 1 <= 0 then perIp - {ip}
    else perIp[ip := perIp[ip] - 1]
  }

  function Step(c: Caps, s: State, a: Action): State {
    var one := multiset{a.ip};
    match a
    case Check(ip) =>
      if |s.checked| + |s.counted| >= c.inFlight then s  // not such a run
      else if c.total > 0 && s.total >= c.total then s   // refused
      else s.(checked := s.checked + one)
    case CountIp(ip) =>
      if ip !in s.checked then s
      else if c.perIp > 0 && CountOf(s.perIp, ip) >= c.perIp
      then s.(checked := s.checked - one, perIp := s.perIp[ip := CountOf(s.perIp, ip)])  // refused
      else s.(checked := s.checked - one, perIp := s.perIp[ip := CountOf(s.perIp, ip) + 1], counted := s.counted + one)
    case AddGlobal(ip) =>
      if ip !in s.counted then s
      else s.(counted := s.counted - one, total := s.total + 1, held := s.held + one)
    case SubGlobal(ip) =>
      if ip !in s.held then s
      else s.(held := s.held - one, total := s.total - 1, dropping := s.dropping + one)
    case UncountIp(ip) =>
      if ip !in s.dropping then s
      else s.(dropping := s.dropping - one, perIp := Uncounted(s.perIp, ip))
  }

  function Run(c: Caps, actions: seq<Action>): State {
    if actions == [] then Init() else Step(c, Run(c, actions[..|actions| - 1]), actions[|actions| - 1])
  }

  /** The map counts an address's connections, and forgets it with the last. */
  ghost predicate IpOk(c: Caps, s: State, ip: Ip) {
    && CountOf(s.perIp, ip) == s.counted[ip] + s.held[ip] + s.dropping[ip]
    && (ip in s.perIp ==> s.perIp[ip] > 0)
    && (c.perIp > 0 ==> CountOf(s.perIp, ip) <= c.perIp)
  }

  ghost predicate Inv(c: Caps, s: State) {
    && s.total == |s.held|
    && |s.checked| + |s.counted| <= c.inFlight
    && (c.total > 0 ==> s.total + |s.checked| + |s.counted| <= c.total - 1 + c.inFlight)
    && forall ip :: IpOk(c, s, ip)
  }

  lemma StepKeepsInv(c: Caps, s: State, a: Action)
    requires c.inFlight > 0 && Inv(c, s)
    ensures Inv(c, Step(c, s, a))
  {
    var s' := Step(c, s, a);
    assert IpOk(c, s, a.ip);
    forall ip ensures IpOk(c, s', ip) {
      assert IpOk(c, s, ip);
    }
  }

  lemma {:induction false} RunKeepsInv(c: Caps, actions: seq<Action>)
    requires c.inFlight > 0
    ensures Inv(c, Run(c, actions))
  {
    if actions != [] {
      RunKeepsInv(c, actions[..|actions| - 1]);
      StepKeepsInv(c, Run(c, actions[..|actions| - 1]), actions[|actions| - 1]);
    }
  }

  /** Over every interleaving: the map counts exactly each address's counted
      connections, within the per-address cap, without zero entries; the global
      count is exactly the held slots and overshoots its cap by at most the
      number of concurrent acquirers less one. */
  lemma SlotsAreAccounted(c: Caps, actions: seq<Action>, ip: Ip)
    requires c.inFlight > 0
    ensures var s := Run(c, actions);
            && CountOf(s.perIp, ip) == s.counted[ip] + s.held[ip] + s.dropping[ip]
            && (ip in s.perIp ==> s.perIp[ip] > 0)
            && (c.perIp > 0 ==> s.held[ip] <= CountOf(s.perIp, ip) <= c.perIp)
            && s.total == |s.held|
            && (c.total > 0 ==> |s.held| + |s.checked| + |s.counted| <= c.total - 1 + c.inFlight)
            && (c.total > 0 && c.inFlight == 1 ==> |s.held| <= c.total)
  {
    RunKeepsInv(c, actions);
    assert IpOk(c, Run(c, actions), ip);
  }

  /** When a slot is refused, in every reachable state: at the check if and only
      if as many slots are held as the global cap allows; at the map if and only
      if the address has as many connections as its own cap allows. */
  lemma SlotIsRefusedIff(c: Caps, actions: seq<Action>, ip: Ip)
    requires c.inFlight > 0
    ensures var s := Run(c, actions);
            |s.checked| + |s.counted| < c.inFlight ==>
              Step(c, s, Check(ip)).checked ==
              if c.total > 0 && |s.held| >= c.total then s.checked else s.checked + multiset{ip}
    ensures var s := Run(c, actions);
            ip in s.checked ==>
              var s' := Step(c, s, CountIp(ip));
              && s'.checked == s.checked - multiset{ip}
              && s'.counted ==
                   if c.perIp > 0 && s.counted[ip] + s.held[ip] + s.dropping[ip] >= c.perIp then s.counted
                   else s.counted + multiset{ip}
  {
    RunKeepsInv(c, actions);
    assert IpOk(c, Run(c, actions), ip);
  }

  /** At rest nothing lingers: no connection, no map entry, count zero. */
  lemma NothingLingers(c: Caps, actions: seq<Action>)
    requires c.inFlight > 0
    requires var s := Run(c, actions); s.counted == s.held == s.dropping == multiset{}
    ensures Run(c, actions).perIp == map[] && Run(c, actions).total == 0
  {
    RunKeepsInv(c, actions);
    forall ip ensures ip !in Run(c, actions).perIp {
      assert IpOk(c, Run(c, actions), ip);
    }
  }

  /** `ips` in the order they arrive: the first `held` hold a slot, those up to
      `counted` are in the map, those up to `checked` are past the check. */
  ghost predicate At(c: Caps, actions: seq<Action>, ips: seq<Ip>, held: nat, counted: nat, checked: nat)
    requires held <= counted <= checked <= |ips|
  {
    var s := Run(c, actions);
    && s.held == multiset(ips[..held])
    && s.counted == multiset(ips[held..counted])
    && s.checked == multiset(ips[counted..checked])
    && s.dropping == multiset{}
  }

  lemma AtStart(c: Caps, ips: seq<Ip>)
    ensures At(c, [], ips, 0, 0, 0)
  {}

  /** A run of `ips` moves one element across a boundary. */
  lemma MoveOne(ips: seq<Ip>, from: nat, mid: nat, to: nat)
    requires from <= mid < to <= |ips|
    ensures multiset(ips[from..mid + 1]) == multiset(ips[from..mid]) + multiset{ips[mid]}
    ensures multiset(ips[mid..to]) == multiset{ips[mid]} + multiset(ips[mid + 1..to])
  {
    assert ips[from..mid + 1] == ips[from..mid] + [ips[mid]];
    assert ips[mid..to] == [ips[mid]] + ips[mid + 1..to];
  }

  lemma StepOfPrefix(c: Caps, actions: seq<Action>, a: Action)
    ensures Run(c, actions + [a]) == Step(c, Run(c, actions), a)
  {
    assert (actions + [a])[..|actions|] == actions;
  }

  lemma CheckOne(c: Caps, actions: seq<Action>, ips: seq<Ip>, held: nat, counted: nat, checked: nat)
    requires held <= counted <= checked < |ips| && At(c, actions, ips, held, counted, checked)
    requires checked - held < c.inFlight && (c.total > 0 ==> held < c.total)
    ensures At(c, actions + [Check(ips[checked])], ips, held, counted, checked + 1)
  {
    StepOfPrefix(c, actions, Check(ips[checked]));
    MoveOne(ips, counted, checked, checked + 1);
    RunKeepsInv(c, actions);
  }

  /** No address occurs more often than the per-address cap allows. */
  ghost predicate WithinCap(c: Caps, ips: seq<Ip>) {
    c.perIp > 0 ==> forall ip :: multiset(ips)[ip] <= c.perIp
  }

  lemma OccursAgain(ips: seq<Ip>, held: nat, counted: nat)
    requires held <= counted < |ips|
    ensures var ip := ips[counted];
            multiset(ips)[ip] >= multiset(ips[..held])[ip] + multiset(ips[held..counted])[ip] + 1
  {
    var ip, rest := ips[counted], ips[counted + 1..];
    assert ips[..counted] == ips[..held] + ips[held..counted];
    assert ips[..counted + 1] == ips[..counted] + [ip];
    assert ips == ips[..counted + 1] + rest;
  }

  lemma NotCapped(c: Caps, actions: seq<Action>, ips: seq<Ip>, held: nat, counted: nat, checked: nat)
    requires held <= counted < checked <= |ips| && At(c, actions, ips, held, counted, checked)
    requires c.inFlight > 0 && c.perIp > 0 && WithinCap(c, ips)
    ensures CountOf(Run(c, actions).perIp, ips[counted]) < c.perIp
  {
    RunKeepsInv(c, actions);
    assert IpOk(c, Run(c, actions), ips[counted]);
    OccursAgain(ips, held, counted);
  }

  lemma CountOne(c: Caps, actions: seq<Action>, ips: seq<Ip>, held: nat, counted: nat, checked: nat)
    requires held <= counted < checked <= |ips| && At(c, actions, ips, held, counted, checked)
    requires c.inFlight > 0 && WithinCap(c, ips)
    ensures At(c, actions + [CountIp(ips[counted])], ips, held, counted + 1, checked)
  {
    if c.perIp > 0 { NotCapped(c, actions, ips, held, counted, checked); }
    hide WithinCap, Run;
    StepOfPrefix(c, actions, CountIp(ips[counted]));
    MoveOne(ips, held, counted, checked);
  }

  lemma AddOne(c: Caps, actions: seq<Action>, ips: seq<Ip>, held: nat, counted: nat, checked: nat)
    requires held < counted <= checked <= |ips| && At(c, actions, ips, held, counted, checked)
    ensures At(c, actions + [AddGlobal(ips[held])], ips, held + 1, counted, checked)
  {
    StepOfPrefix(c, actions, AddGlobal(ips[held]));
    MoveOne(ips, 0, held, counted);
    MoveOne(ips, held, held, counted);
  }

  /** The bound of SlotsAreAccounted is attained, whatever the caps and the
      number of concurrent acquirers, by any addresses that respect the
      per-address cap: the global cap is really overshot. */
  lemma GlobalBoundIsTight(c: Caps, ips: seq<Ip>) returns (actions: seq<Action>)
    requires c.total > 0 && c.inFlight > 0
    requires |ips| == c.total - 1 + c.inFlight && WithinCap(c, ips)
    ensures Run(c, actions).held == multiset(ips) && |Run(c, actions).held| == c.total - 1 + c.inFlight
  {
    hide At, Run, WithinCap;
    var n := 0;
    actions := [];
    AtStart(c, ips);
    while n < c.total - 1
      invariant n <= c.total - 1 && At(c, actions, ips, n, n, n)
    {
      CheckOne(c, actions, ips, n, n, n);
      actions := actions + [Check(ips[n])];
      CountOne(c, actions, ips, n, n, n + 1);
      actions := actions + [CountIp(ips[n])];
      AddOne(c, actions, ips, n, n + 1, n + 1);
      actions := actions + [AddGlobal(ips[n])];
      n := n + 1;
    }
    for k := n to |ips|
      invariant At(c, actions, ips, n, n, k)
    {
      CheckOne(c, actions, ips, n, n, k);
      actions := actions + [Check(ips[k])];
    }
    for k := n to |ips|
      invariant At(c, actions, ips, n, k, |ips|)
    {
      CountOne(c, actions, ips, n, k, |ips|);
      actions := actions + [CountIp(ips[k])];
    }
    for k := n to |ips|
      invariant At(c, actions, ips, k, |ips|, |ips|)
    {
      AddOne(c, actions, ips, k, |ips|, |ips|);
      actions := actions + [AddGlobal(ips[k])];
    }
    AllHeld(c, actions, ips);
  }

  lemma AllHeld(c: Caps, actions: seq<Action>, ips: seq<Ip>)
    requires At(c, actions, ips, |ips|, |ips|, |ips|)
    ensures Run(c, actions).held == multiset(ips)
  {
    assert ips[..|ips|] == ips;
  }
}

module Slots {
  import opened CallLog
  import opened SlotProtocol

  /** The accounting object, used by one caller at a time. */
  class SseSlots {
    const perIpCap: nat
    const totalCap: nat
    var total: int
    var perIp: map<Ip, int>
    /** The slots handed out and not dropped yet. */
    ghost var held: multiset<Ip>

    ghost predicate Valid()
      reads this
    {
      && total == |held|
      && (totalCap > 0 ==> |held| <= totalCap)
      && (forall ip :: CountOf(perIp, ip) == held[ip])
      && (forall ip :: ip in perIp ==> perIp[ip] > 0)
      && (perIpCap > 0 ==> forall ip :: held[ip] <= perIpCap)
    }

    constructor (perIpCap: nat, totalCap: nat)
      ensures Valid() && held == multiset{}
      ensures this.perIpCap == perIpCap && this.totalCap == totalCap
    {
      this.perIpCap, this.totalCap := perIpCap, totalCap;
      total, perIp, held := 0, map[], multiset{};
    }

    /** A slot is granted if and only if neither cap is reached. */
    method TryAcquire(ip: Ip) returns (granted: bool)
      requires Valid()
      modifies this
      ensures Valid()
      ensures granted <==> (totalCap == 0 || |old(held)| < totalCap) && (perIpCap == 0 || old(held)[ip] < perIpCap)
      ensures held == if granted then old(held) + multiset{ip} else old(held)
    {
      if totalCap > 0 && total >= totalCap { return false; }
      var count := CountOf(perIp, ip);
      if perIpCap > 0 && count >= perIpCap { return false; }
      perIp := perIp[ip := count + 1];
      total := total + 1;
      held := held + multiset{ip};
      granted := true;
    }

    /** Dropping a slot releases it everywhere. */
    method Drop(ip: Ip)
      requires Valid() && ip in held
      modifies this
      ensures Valid() && held == old(held) - multiset{ip}
    {
      total := total - 1;
      perIp := Uncounted(perIp, ip);
      held := held - multiset{ip};
      assert forall i :: i != ip ==> CountOf(perIp, i) == CountOf(old(perIp), i);
    }
  }
}

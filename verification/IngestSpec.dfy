/** What the indexer makes of a chain's event log: the specification
    (crates/attesta-indexer/src/ingest.rs, migrations/0001_init.sql). */
module IngestSpec {
  import opened Hashing
  import opened Commitments
  import opened Wrappers

  type Bytes(==, !new)

  /** The mutable columns of an issuer row. */
  type IssuerRecord(==, !new)

  datatype PoolEvent =
    | NewCommitment(commitment: Node, leafIndex: int, deposit: Option<int>, depositAsset: Option<string>)
    | NullifierSpent(nullifier: Bytes)
    | EncryptedNote(blob: Bytes)
    | Withdrawal(amount: int, asset: string)
    | IssuerUpdated(issuer: string, record: IssuerRecord)

  /** A raw event with the answer `decode` gives for it. */
  datatype RawEvent = RawEvent(ledger: int, decoded: Option<PoolEvent>)

  /** What only the first offer of a key can set. */
  datatype FirstWins = FirstWins(
    commitments: Table,
    nullifiers: map<Bytes, int>,   // ledger
    registered: map<string, int>)  // an issuer's registered_ledger

  /** What the latest offer of a key sets: an issuer's record. */
  type LastWins = map<string, IssuerRecord>

  // ---------- One statement each ----------

  function InsertCommitment(f: FirstWins, e: PoolEvent, ledger: int): FirstWins
    requires e.NewCommitment?
  {
    f.(commitments := InsertRow(f.commitments, e.leafIndex, CommitmentRow(Stored32(e.commitment), ledger)))
  }

  function InsertNullifier(f: FirstWins, nullifier: Bytes, ledger: int): FirstWins {
    if nullifier in f.nullifiers then f else f.(nullifiers := f.nullifiers[nullifier := ledger])
  }

  function Register(f: FirstWins, issuer: string, ledger: int): FirstWins {
    if issuer in f.registered then f else f.(registered := f.registered[issuer := ledger])
  }

  // ---------- Folding the log ----------

  function OfferFirst(f: FirstWins, raw: RawEvent): FirstWins {
    match raw.decoded
    case Some(NewCommitment(c, i, d, a)) => InsertCommitment(f, raw.decoded.value, raw.ledger)
    case Some(NullifierSpent(n)) => InsertNullifier(f, n, raw.ledger)
    case Some(IssuerUpdated(i, r)) => Register(f, i, raw.ledger)
    case _ => f
  }

  function OfferLast(l: LastWins, raw: RawEvent): LastWins {
    match raw.decoded
    case Some(IssuerUpdated(i, r)) => l[i := r]
    case _ => l
  }

  function NoteOf(raw: RawEvent): seq<Bytes> {
    match raw.decoded
    case Some(EncryptedNote(b)) => [b]
    case _ => []
  }

  datatype Side = In | Out

  /** What `add_pool_total` books for an event on either side. */
  function Amount(side: Side, raw: RawEvent): int {
    match raw.decoded
    case Some(NewCommitment(c, i, Some(amount), Some(asset))) => if side.In? then amount else 0
    case Some(Withdrawal(amount, asset)) => if side.Out? then amount else 0
    case _ => 0
  }

  /** Log positions in the order the indexer worked on them. */
  type Visits = seq<nat>

  ghost predicate InLog(log: seq<RawEvent>, h: Visits) {
    forall k :: 0 <= k < |h| ==> h[k] < |log|
  }

  const EMPTY := FirstWins(map[], map[], map[])

  ghost function FirstFold(log: seq<RawEvent>, h: Visits): FirstWins
    requires InLog(log, h)
  {
    if h == [] then EMPTY else OfferFirst(FirstFold(log, h[..|h| - 1]), log[h[|h| - 1]])
  }

  ghost function LastFold(log: seq<RawEvent>, h: Visits): LastWins
    requires InLog(log, h)
  {
    if h == [] then map[] else OfferLast(LastFold(log, h[..|h| - 1]), log[h[|h| - 1]])
  }

  ghost function NotesFold(log: seq<RawEvent>, h: Visits): seq<Bytes>
    requires InLog(log, h)
  {
    if h == [] then [] else NotesFold(log, h[..|h| - 1]) + NoteOf(log[h[|h| - 1]])
  }

  ghost function Total(log: seq<RawEvent>, side: Side, h: Visits): int
    requires InLog(log, h)
  {
    if h == [] then 0 else Total(log, side, h[..|h| - 1]) + Amount(side, log[h[|h| - 1]])
  }

  /** The crash-free visit of the first `n` events. */
  ghost function Straight(n: nat): (h: Visits)
    ensures |h| == n && forall k :: 0 <= k < n ==> h[k] == k
  {
    seq(n, k requires 0 <= k < n => k)
  }

  /** How a crashing, restarting indexer can move: on to the next event, or
      back to any earlier one, never past an event it has not visited. */
  ghost predicate Walk(h: Visits) {
    && (h != [] ==> h[0] == 0)
    && forall j, k :: 0 <= j < k < |h| && k == j + 1 ==> h[k] <= h[j] + 1
  }

  ghost function NextAfter(h: Visits): nat {
    if h == [] then 0 else h[|h| - 1] + 1
  }

  /** One past the furthest event ever visited. */
  ghost function Reach(h: Visits): nat {
    if h == [] then 0
    else
      var r, last := Reach(h[..|h| - 1]), h[|h| - 1];
      if last + 1 > r then last + 1 else r
  }

  lemma WalkPrefix(h: Visits)
    requires Walk(h) && h != []
    ensures Walk(h[..|h| - 1]) && h[|h| - 1] <= NextAfter(h[..|h| - 1])
  {}

  /** A walk has visited exactly the events before its reach. */
  lemma {:induction false} WalkVisitsAll(h: Visits)
    requires Walk(h)
    ensures forall i: nat :: i < Reach(h) <==> i in h
    ensures NextAfter(h) <= Reach(h)
  {
    if h != [] {
      WalkPrefix(h);
      WalkVisitsAll(h[..|h| - 1]);
      assert h == h[..|h| - 1] + [h[|h| - 1]];
    }
  }

  lemma InLogPrefix(log: seq<RawEvent>, h: Visits)
    requires InLog(log, h) && h != []
    ensures InLog(log, h[..|h| - 1]) && h[|h| - 1] < |log|
  {}

  // ---------- First-wins tables ----------

  /** A later offer of an event that was offered before changes nothing. */
  ghost predicate Absorbed(f: FirstWins, raw: RawEvent) {
    match raw.decoded
    case Some(NewCommitment(c, i, d, a)) => Taken(f.commitments, i, Stored32(c))
    case Some(NullifierSpent(n)) => n in f.nullifiers
    case Some(IssuerUpdated(i, r)) => i in f.registered
    case _ => true
  }

  lemma OfferAbsorbs(f: FirstWins, raw: RawEvent)
    ensures Absorbed(OfferFirst(f, raw), raw)
    ensures Absorbed(f, raw) ==> OfferFirst(f, raw) == f
  {
    var f' := OfferFirst(f, raw);
    match raw.decoded
    case Some(NewCommitment(c, i, d, a)) => assert Taken(f.commitments, i, Stored32(c)) || i in f'.commitments;
    case _ =>
  }

  lemma AbsorbedForever(f: FirstWins, raw: RawEvent, other: RawEvent)
    requires Absorbed(f, raw)
    ensures Absorbed(OfferFirst(f, other), raw)
  {
    var f' := OfferFirst(f, other);
    assert forall k :: k in f.commitments ==> k in f'.commitments && f'.commitments[k] == f.commitments[k];
  }

  lemma {:induction false} VisitedIsAbsorbed(log: seq<RawEvent>, h: Visits, i: nat)
    requires InLog(log, h) && i in h
    ensures i < |log| && Absorbed(FirstFold(log, h), log[i])
  {
    InLogPrefix(log, h);
    var init, last := h[..|h| - 1], h[|h| - 1];
    if last == i {
      OfferAbsorbs(FirstFold(log, init), log[i]);
    } else {
      assert h == init + [last];
      VisitedIsAbsorbed(log, init, i);
      AbsorbedForever(FirstFold(log, init), log[i], log[last]);
    }
  }

  /** Offering any already visited events again, in any order, is a no-op. */
  lemma {:induction false} ReofferingIsNoop(log: seq<RawEvent>, h: Visits, again: Visits)
    requires InLog(log, h) && forall i :: i in again ==> i in h
    ensures InLog(log, h + again) && FirstFold(log, h + again) == FirstFold(log, h)
  {
    if again == [] {
      assert h + again == h;
    } else {
      var init, last := again[..|again| - 1], again[|again| - 1];
      assert forall i :: i in init ==> i in again;
      assert last in again;
      ReofferingIsNoop(log, h, init);
      VisitedIsAbsorbed(log, h, last);
      assert (h + again)[..|h + again| - 1] == h + init;
      OfferAbsorbs(FirstFold(log, h), log[last]);
    }
  }

  /** Replay convergence, first-wins tables: at every moment of every walk they
      are what one crash-free pass up to the furthest event makes of the log. */
  lemma {:induction false} FirstWinsConverges(log: seq<RawEvent>, h: Visits)
    requires InLog(log, h) && Walk(h)
    ensures Reach(h) <= |log| && FirstFold(log, h) == FirstFold(log, Straight(Reach(h)))
  {
    if h == [] {
      assert Straight(0) == [];
    } else {
      var init, last := h[..|h| - 1], h[|h| - 1];
      InLogPrefix(log, h);
      WalkPrefix(h);
      FirstWinsConverges(log, init);
      WalkVisitsAll(init);
      if last < Reach(init) {
        VisitedIsAbsorbed(log, init, last);
        OfferAbsorbs(FirstFold(log, init), log[last]);
      } else {
        assert Straight(last + 1)[..last] == Straight(last);
      }
    }
  }

  // ---------- Where first-wins rows come from ----------

  /** A commitment row is what one of the worked-on events says: its commitment
      at its leaf index, with the ledger of that event. */
  lemma {:induction false} CommitmentHasOrigin(log: seq<RawEvent>, h: Visits, k: int) returns (i: nat)
    requires InLog(log, h) && k in FirstFold(log, h).commitments
    ensures i in h && i < |log| && log[i].decoded.Some? && log[i].decoded.value.NewCommitment?
    ensures var e := log[i].decoded.value;
            && e.leafIndex == k
            && FirstFold(log, h).commitments[k].commitment == Stored32(e.commitment)
            && FirstFold(log, h).commitments[k].ledger == log[i].ledger
  {
    var init, last := h[..|h| - 1], h[|h| - 1];
    InLogPrefix(log, h);
    if k in FirstFold(log, init).commitments {
      i := CommitmentHasOrigin(log, init, k);
    } else {
      i := last;
    }
  }

  ghost predicate Spends(raw: RawEvent, nullifier: Bytes) {
    raw.decoded == Some(NullifierSpent(nullifier))
  }

  /** A nullifier is in the table if and only if an event spent it, with the
      ledger of the first event that did. */
  lemma {:induction false} NullifierIsFirstSpend(log: seq<RawEvent>, n: nat, nullifier: Bytes) returns (i: nat)
    requires n <= |log|
    ensures var table := FirstFold(log, Straight(n)).nullifiers;
            if nullifier in table
            then i < n && Spends(log[i], nullifier) && table[nullifier] == log[i].ledger
                 && forall j: nat :: j < i ==> !Spends(log[j], nullifier)
            else forall j: nat :: j < n ==> !Spends(log[j], nullifier)
  {
    i := 0;
    if n != 0 {
      i := NullifierIsFirstSpend(log, n - 1, nullifier);
      StraightFirst(log, n);
      if Spends(log[n - 1], nullifier) && nullifier !in FirstFold(log, Straight(n - 1)).nullifiers { i := n - 1; }
    }
  }

  /** An issuer is registered if and only if an event was about it, with the
      ledger of the first event that was. */
  lemma {:induction false} RegistrationIsFirst(log: seq<RawEvent>, n: nat, issuer: string) returns (i: nat)
    requires n <= |log|
    ensures var table := FirstFold(log, Straight(n)).registered;
            if issuer in table
            then i < n && About(log[i], issuer) && table[issuer] == log[i].ledger
                 && forall j: nat :: j < i ==> !About(log[j], issuer)
            else forall j: nat :: j < n ==> !About(log[j], issuer)
  {
    i := 0;
    if n != 0 {
      i := RegistrationIsFirst(log, n - 1, issuer);
      StraightFirst(log, n);
      if About(log[n - 1], issuer) && issuer !in FirstFold(log, Straight(n - 1)).registered { i := n - 1; }
    }
  }

  lemma StraightFirst(log: seq<RawEvent>, n: nat)
    requires 0 < n <= |log|
    ensures FirstFold(log, Straight(n)) == OfferFirst(FirstFold(log, Straight(n - 1)), log[n - 1])
  {
    assert Straight(n)[..n - 1] == Straight(n - 1);
  }

  // ---------- Last-wins table ----------

  ghost predicate About(raw: RawEvent, issuer: string) {
    raw.decoded.Some? && raw.decoded.value.IssuerUpdated? && raw.decoded.value.issuer == issuer
  }

  /** The table shows the record of one event about the issuer, and that event
      is not older than any event about it up to where the walk stands. */
  lemma {:induction false} LastFoldShows(log: seq<RawEvent>, h: Visits, issuer: string) returns (j: nat)
    requires InLog(log, h) && Walk(h)
    ensures issuer in LastFold(log, h) ==>
              && j < Reach(h) <= |log| && About(log[j], issuer) && LastFold(log, h)[issuer] == log[j].decoded.value.record
              && forall i: nat :: i < NextAfter(h) && About(log[i], issuer) ==> i <= j
    ensures issuer !in LastFold(log, h) ==> forall i: nat :: i < NextAfter(h) <= |log| ==> !About(log[i], issuer)
  {
    j := 0;
    if h != [] {
      var init, last := h[..|h| - 1], h[|h| - 1];
      InLogPrefix(log, h);
      WalkPrefix(h);
      j := LastFoldShows(log, init, issuer);
      FirstWinsConverges(log, h);
      if About(log[last], issuer) { j := last; }
    }
  }

  /** Replay convergence, last-wins table: whenever a walk stands at its
      furthest event, the records are those of one crash-free pass. */
  lemma LastWinsConverges(log: seq<RawEvent>, h: Visits)
    requires InLog(log, h) && Walk(h) && NextAfter(h) == Reach(h)
    ensures Reach(h) <= |log| && LastFold(log, h) == LastFold(log, Straight(Reach(h)))
  {
    var n := Reach(h);
    FirstWinsConverges(log, h);
    StraightReach(n);
    forall issuer: string
      ensures issuer in LastFold(log, h) <==> issuer in LastFold(log, Straight(n))
      ensures issuer in LastFold(log, h) ==> LastFold(log, h)[issuer] == LastFold(log, Straight(n))[issuer]
    {
      var j := LastFoldShows(log, h, issuer);
      var j' := LastFoldShows(log, Straight(n), issuer);
    }
  }

  lemma {:induction false} StraightReach(n: nat)
    ensures Walk(Straight(n)) && Reach(Straight(n)) == n == NextAfter(Straight(n))
  {
    if n != 0 {
      StraightReach(n - 1);
      assert Straight(n)[..n - 1] == Straight(n - 1);
    }
  }

  // ---------- The notes table has no replay guard ----------

  ghost predicate NotesOnce(log: seq<RawEvent>, times: multiset<nat>) {
    forall i: nat :: i < |log| && NoteOf(log[i]) != [] ==> times[i] <= 1
  }

  /** How many of the stored notes were stored before. */
  ghost function StoredAgain(log: seq<RawEvent>, h: Visits): nat
    requires InLog(log, h)
  {
    if h == [] then 0
    else
      var init, last := h[..|h| - 1], h[|h| - 1];
      StoredAgain(log, init) + if last < Reach(init) then |NoteOf(log[last])| else 0
  }

  /** The surplus over a crash-free pass is exactly the notes stored again. */
  lemma {:induction false} NotesSurplus(log: seq<RawEvent>, h: Visits)
    requires InLog(log, h) && Walk(h)
    ensures Reach(h) <= |log|
    ensures |NotesFold(log, h)| == |NotesFold(log, Straight(Reach(h)))| + StoredAgain(log, h)
    ensures StoredAgain(log, h) == 0 ==> NotesFold(log, h) == NotesFold(log, Straight(Reach(h)))
  {
    if h == [] {
      assert Straight(0) == [];
    } else {
      var init, last := h[..|h| - 1], h[|h| - 1];
      InLogPrefix(log, h);
      WalkMoves(h);
      NotesSurplus(log, init);
      hide NoteOf, Walk, Reach;
      if last == Reach(init) { assert Straight(last + 1)[..last] == Straight(last); }
    }
  }

  /** A step of a walk revisits an event, or reaches exactly the next new one. */
  lemma WalkMoves(h: Visits)
    requires Walk(h) && h != []
    ensures var init, last := h[..|h| - 1], h[|h| - 1];
            && Walk(init)
            && last <= Reach(init)
            && Reach(h) == if last < Reach(init) then Reach(init) else last + 1
  {
    WalkPrefix(h);
    WalkVisitsAll(h[..|h| - 1]);
  }

  lemma {:induction false} NoneStoredAgain(log: seq<RawEvent>, h: Visits)
    requires InLog(log, h) && Walk(h)
    ensures StoredAgain(log, h) == 0 <==> NotesOnce(log, multiset(h))
  {
    if h != [] {
      var init, last := h[..|h| - 1], h[|h| - 1];
      InLogPrefix(log, h);
      WalkPrefix(h);
      WalkVisitsAll(init);
      NoneStoredAgain(log, init);
      assert h == init + [last];
      var times: multiset<nat> := multiset(init);
      assert last in init <==> times[last] > 0;
    }
  }

  /** When the notes survive replays: they are those of one crash-free pass up
      to the furthest event if and only if no note event was worked on twice;
      otherwise there are too many. */
  lemma NotesAreExactIffStoredOnce(log: seq<RawEvent>, h: Visits)
    requires InLog(log, h) && Walk(h)
    ensures Reach(h) <= |log|
    ensures |NotesFold(log, h)| >= |NotesFold(log, Straight(Reach(h)))|
    ensures NotesFold(log, h) == NotesFold(log, Straight(Reach(h))) <==> NotesOnce(log, multiset(h))
  {
    NotesSurplus(log, h);
    NoneStoredAgain(log, h);
  }

  // ---------- Totals have no replay guard ----------

  /** Amount times multiplicity, over the first `n` events. */
  ghost function Booked(log: seq<RawEvent>, side: Side, times: multiset<nat>, n: nat): int
    requires n <= |log|
  {
    if n == 0 then 0 else Booked(log, side, times, n - 1) + times[n - 1] * Amount(side, log[n - 1])
  }

  lemma {:induction false} BookedOnceMore(log: seq<RawEvent>, side: Side, times: multiset<nat>, i: nat, n: nat)
    requires i < |log| && n <= |log|
    ensures Booked(log, side, times + multiset{i}, n)
         == Booked(log, side, times, n) + if i < n then Amount(side, log[i]) else 0
  {
    if n != 0 {
      BookedOnceMore(log, side, times, i, n - 1);
      var x := Amount(side, log[n - 1]);
      if i == n - 1 { assert (times[i] + 1) * x == times[i] * x + x; }
    }
  }

  lemma {:induction false} NothingBooked(log: seq<RawEvent>, side: Side, n: nat)
    requires n <= |log|
    ensures Booked(log, side, multiset{}, n) == 0
  {
    if n != 0 { NothingBooked(log, side, n - 1); }
  }

  /** Conservation: a total is the sum of every amount times the number of
      times it was booked. */
  lemma {:induction false} TotalCountsEveryBooking(log: seq<RawEvent>, side: Side, h: Visits)
    requires InLog(log, h)
    ensures Total(log, side, h) == Booked(log, side, multiset(h), |log|)
  {
    if h == [] {
      NothingBooked(log, side, |log|);
    } else {
      var init, last := h[..|h| - 1], h[|h| - 1];
      InLogPrefix(log, h);
      TotalCountsEveryBooking(log, side, init);
      assert h == init + [last];
      BookedOnceMore(log, side, multiset(init), last, |log|);
    }
  }

  ghost predicate BookedOnce(log: seq<RawEvent>, side: Side, times: multiset<nat>, n: nat)
    requires n <= |log|
  {
    forall i: nat :: i < n && Amount(side, log[i]) > 0 ==> times[i] == 1
  }

  lemma {:induction false} BookedAgainstOnce(log: seq<RawEvent>, side: Side, times: multiset<nat>, once: multiset<nat>, n: nat)
    requires n <= |log|
    requires forall i: nat :: i < n ==> times[i] >= 1 && once[i] == 1 && Amount(side, log[i]) >= 0
    ensures Booked(log, side, times, n) >= Booked(log, side, once, n)
    ensures Booked(log, side, times, n) == Booked(log, side, once, n) <==> BookedOnce(log, side, times, n)
  {
    if n != 0 {
      BookedAgainstOnce(log, side, times, once, n - 1);
      var c, x := times[n - 1], Amount(side, log[n - 1]);
      assert c * x == x + (c - 1) * x;
      if c > 1 && x > 0 { assert (c - 1) * x > 0; } else { assert (c - 1) * x == 0; }
    }
  }

  lemma {:induction false} BookedNothingBeyond(log: seq<RawEvent>, side: Side, times: multiset<nat>, n: nat, k: nat)
    requires n <= k <= |log| && forall i: nat :: n <= i < k ==> times[i] == 0
    ensures Booked(log, side, times, k) == Booked(log, side, times, n)
  {
    if n < k { BookedNothingBeyond(log, side, times, n, k - 1); }
  }

  lemma {:induction false} StraightOnce(n: nat)
    ensures forall i: nat :: multiset(Straight(n))[i] == if i < n then 1 else 0
  {
    if n != 0 {
      StraightOnce(n - 1);
      assert Straight(n) == Straight(n - 1) + [n - 1];
    } else {
      assert Straight(0) == [];
    }
  }

  lemma MembershipCounts(h: Visits, n: nat)
    requires forall i: nat :: i in h <==> i < n
    ensures forall i: nat :: if i < n then multiset(h)[i] >= 1 else multiset(h)[i] == 0
  {
    forall i: nat ensures if i < n then multiset(h)[i] >= 1 else multiset(h)[i] == 0 {
      assert i in h <==> i in multiset(h);
    }
  }

  /** When the totals survive replays: once everything before `n` has been
      booked, and amounts are not negative, a total is that of one crash-free
      pass if and only if no event with a positive amount was booked twice;
      otherwise it is too high. */
  lemma TotalIsExactIffBookedOnce(log: seq<RawEvent>, side: Side, h: Visits, n: nat)
    requires InLog(log, h) && n <= |log| && (forall i: nat :: i in h <==> i < n)
    requires forall i: nat :: i < n ==> Amount(side, log[i]) >= 0
    ensures InLog(log, Straight(n))
    ensures Total(log, side, h) >= Total(log, side, Straight(n))
    ensures Total(log, side, h) == Total(log, side, Straight(n)) <==> BookedOnce(log, side, multiset(h), n)
  {
    var times, once := multiset(h), multiset(Straight(n));
    StraightOnce(n);
    TotalCountsEveryBooking(log, side, h);
    TotalCountsEveryBooking(log, side, Straight(n));
    MembershipCounts(h, n);
    BookedNothingBeyond(log, side, times, n, |log|);
    BookedNothingBeyond(log, side, once, n, |log|);
    BookedAgainstOnce(log, side, times, once, n);
  }

  // ---------- One pass, from a resume position on ----------

  /** The visits of a pass over the events `from..to`. */
  ghost function Range(from: nat, to: nat): (h: Visits)
    requires from <= to
    ensures |h| == to - from && forall k :: 0 <= k < |h| ==> h[k] == from + k
  {
    seq(to - from, k requires 0 <= k < to - from => from + k)
  }

  /** The notes the log holds at `from..to`. */
  function NotesIn(log: seq<RawEvent>, from: nat, to: nat): seq<Bytes>
    requires to <= |log|
  {
    if from >= to then [] else NotesIn(log, from, to - 1) + NoteOf(log[to - 1])
  }

  /** What the events at `from..to` move on one side. */
  function AmountIn(log: seq<RawEvent>, side: Side, from: nat, to: nat): int
    requires to <= |log|
  {
    if from >= to then 0 else AmountIn(log, side, from, to - 1) + Amount(side, log[to - 1])
  }

  /** The notes among the events, in order. */
  function Blobs(events: seq<RawEvent>): seq<Bytes> {
    if events == [] then []
    else
      var last := events[|events| - 1];
      Blobs(events[..|events| - 1])
      + if last.decoded.Some? && last.decoded.value.EncryptedNote? then [last.decoded.value.blob] else []
  }

  /** The sum of all deposits that name their amount and asset. */
  function Deposits(events: seq<RawEvent>): int {
    if events == [] then 0
    else
      var last := events[|events| - 1];
      Deposits(events[..|events| - 1])
      + if last.decoded.Some? && last.decoded.value.NewCommitment?
           && last.decoded.value.deposit.Some? && last.decoded.value.depositAsset.Some?
        then last.decoded.value.deposit.value else 0
  }

  /** The sum of all withdrawals. */
  function Withdrawals(events: seq<RawEvent>): int {
    if events == [] then 0
    else
      var last := events[|events| - 1];
      Withdrawals(events[..|events| - 1])
      + if last.decoded.Some? && last.decoded.value.Withdrawal? then last.decoded.value.amount else 0
  }

  /** What a stretch of the log holds: its notes, deposits and withdrawals. */
  lemma {:induction false} LogHolds(log: seq<RawEvent>, from: nat, to: nat)
    requires from <= to <= |log|
    ensures NotesIn(log, from, to) == Blobs(log[from..to])
    ensures AmountIn(log, In, from, to) == Deposits(log[from..to])
    ensures AmountIn(log, Out, from, to) == Withdrawals(log[from..to])
  {
    if from < to {
      LogHolds(log, from, to - 1);
      assert log[from..to][..to - 1 - from] == log[from..to - 1];
      assert log[from..to][to - 1 - from] == log[to - 1];
    }
  }

  lemma {:induction false} NotesInSplit(log: seq<RawEvent>, from: nat, mid: nat, to: nat)
    requires from <= mid <= to <= |log|
    ensures NotesIn(log, from, to) == NotesIn(log, from, mid) + NotesIn(log, mid, to)
  {
    if mid < to { NotesInSplit(log, from, mid, to - 1); }
  }

  lemma {:induction false} AmountInSplit(log: seq<RawEvent>, side: Side, from: nat, mid: nat, to: nat)
    requires from <= mid <= to <= |log|
    ensures AmountIn(log, side, from, to) == AmountIn(log, side, from, mid) + AmountIn(log, side, mid, to)
  {
    if mid < to { AmountInSplit(log, side, from, mid, to - 1); }
  }

  lemma RangeSnoc(h: Visits, from: nat, to: nat)
    requires from <= to
    ensures h + Range(from, to + 1) == h + Range(from, to) + [to]
  {}

  lemma FoldsSnoc(log: seq<RawEvent>, side: Side, h: Visits, i: nat)
    requires InLog(log, h) && i < |log|
    ensures InLog(log, h + [i])
    ensures NotesFold(log, h + [i]) == NotesFold(log, h) + NoteOf(log[i])
    ensures Total(log, side, h + [i]) == Total(log, side, h) + Amount(side, log[i])
  {
    assert (h + [i])[..|h|] == h;
  }

  /** What a pass adds to notes and totals is what its events hold. */
  lemma {:induction false} PassAdds(log: seq<RawEvent>, side: Side, h: Visits, from: nat, to: nat)
    requires InLog(log, h) && from <= to <= |log|
    ensures InLog(log, h + Range(from, to))
    ensures NotesFold(log, h + Range(from, to)) == NotesFold(log, h) + NotesIn(log, from, to)
    ensures Total(log, side, h + Range(from, to)) == Total(log, side, h) + AmountIn(log, side, from, to)
  {
    hide NotesFold, Total, NoteOf, Amount, InLog;
    if from == to {
      assert h + Range(from, to) == h;
    } else {
      PassAdds(log, side, h, from, to - 1);
      RangeSnoc(h, from, to - 1);
      FoldsSnoc(log, side, h + Range(from, to - 1), to - 1);
    }
  }

  lemma StraightFolds(log: seq<RawEvent>, side: Side, n: nat)
    requires n <= |log|
    ensures NotesFold(log, Straight(n)) == NotesIn(log, 0, n)
    ensures Total(log, side, Straight(n)) == AmountIn(log, side, 0, n)
  {
    PassAdds(log, side, [], 0, n);
    assert [] + Range(0, n) == Straight(n);
  }

  /** The notes are those the log holds up to the furthest event. */
  ghost predicate NotesExact(log: seq<RawEvent>, h: Visits)
    requires InLog(log, h)
  {
    Reach(h) <= |log| && NotesFold(log, h) == NotesIn(log, 0, Reach(h))
  }

  lemma WalkSnoc(h: Visits, i: nat)
    requires Walk(h) && i <= NextAfter(h)
    ensures Walk(h + [i]) && NextAfter(h + [i]) == i + 1
    ensures Reach(h + [i]) == if i + 1 > Reach(h) then i + 1 else Reach(h)
  {
    assert (h + [i])[..|h|] == h;
  }

  lemma {:induction false} PassReach(h: Visits, from: nat, to: nat)
    requires Walk(h) && from <= NextAfter(h) && from <= to
    ensures Walk(h + Range(from, to))
    ensures Reach(h + Range(from, to)) == if from < to && to > Reach(h) then to else Reach(h)
    ensures from < to ==> NextAfter(h + Range(from, to)) == to
  {
    hide Walk, Reach, NextAfter;
    if from == to {
      assert h + Range(from, to) == h;
    } else {
      PassReach(h, from, to - 1);
      RangeSnoc(h, from, to - 1);
      if from == to - 1 { assert h + Range(from, from) == h; }
      WalkSnoc(h + Range(from, to - 1), to - 1);
    }
  }

  /** Exact sequences stay exact under `new'` only if nothing comes in between. */
  lemma SurplusIff(before: seq<Bytes>, straight: seq<Bytes>, again: seq<Bytes>, new': seq<Bytes>)
    requires |before| >= |straight|
    ensures before + (again + new') == straight + new' <==> before == straight && again == []
  {
    assert again == [] ==> again + new' == new';
    if before + (again + new') == straight + new' {
      assert again == [] && again + new' == new';
      assert before == (before + new')[..|before|] == (straight + new')[..|straight|] == straight;
    }
  }

  /** When one pass keeps the notes exact: a pass that resumes at `from` and
      ends at or past the furthest event leaves exact notes if and only if they
      were exact and the log holds no note between `from` and the furthest
      event, where the pass repeats work. */
  lemma PassKeepsNotesIff(log: seq<RawEvent>, h: Visits, from: nat, to: nat)
    requires InLog(log, h) && Walk(h) && from <= NextAfter(h) && Reach(h) <= to <= |log|
    ensures from <= Reach(h) && InLog(log, h + Range(from, to))
    ensures NotesExact(log, h + Range(from, to)) <==> NotesExact(log, h) && NotesIn(log, from, Reach(h)) == []
  {
    hide NotesFold, Total, Reach, Walk, NotesOnce;
    var r := Reach(h);
    WalkReach(h);
    PassReach(h, from, to);
    PassAdds(log, In, h, from, to);
    StraightFolds(log, In, r);
    NotesInSplit(log, from, r, to);
    NotesInSplit(log, 0, r, to);
    NotesAreExactIffStoredOnce(log, h);
    SurplusIff(NotesFold(log, h), NotesIn(log, 0, r), NotesIn(log, from, r), NotesIn(log, r, to));
  }

  ghost predicate NonNegative(log: seq<RawEvent>, side: Side, from: nat, to: nat)
    requires to <= |log|
  {
    forall i: nat :: from <= i < to ==> Amount(side, log[i]) >= 0
  }

  lemma {:induction false} NothingMoved(log: seq<RawEvent>, side: Side, from: nat, to: nat)
    requires to <= |log| && NonNegative(log, side, from, to)
    ensures AmountIn(log, side, from, to) >= 0
    ensures AmountIn(log, side, from, to) == 0 <==> forall i: nat :: from <= i < to ==> Amount(side, log[i]) == 0
  {
    if from < to {
      NothingMoved(log, side, from, to - 1);
      assert AmountIn(log, side, from, to) == AmountIn(log, side, from, to - 1) + Amount(side, log[to - 1]);
    }
  }

  lemma WalkReach(h: Visits)
    requires Walk(h)
    ensures NextAfter(h) <= Reach(h)
  {
    WalkVisitsAll(h);
  }

  /** A pass that resumes at `from` and ends at or past the furthest event moves
      a total off the log's amounts by exactly what it books again. */
  lemma PassMovesSurplus(log: seq<RawEvent>, side: Side, h: Visits, from: nat, to: nat)
    requires InLog(log, h) && Walk(h) && from <= NextAfter(h) && Reach(h) <= to <= |log|
    ensures from <= Reach(h) && InLog(log, h + Range(from, to))
    ensures Total(log, side, h + Range(from, to)) - AmountIn(log, side, 0, to)
         == Total(log, side, h) - AmountIn(log, side, 0, Reach(h)) + AmountIn(log, side, from, Reach(h))
  {
    hide Total, AmountIn, NotesFold, NotesIn, Walk, Reach, InLog;
    WalkReach(h);
    PassAdds(log, side, h, from, to);
    AmountInSplit(log, side, from, Reach(h), to);
    AmountInSplit(log, side, 0, Reach(h), to);
  }

  /** And a replay does break them: one note, or one deposit, worked on twice. */
  lemma ReplayDuplicates(blob: Bytes, commitment: Node, amount: int, asset: string)
    requires amount > 0
    ensures var log := [RawEvent(1, Some(EncryptedNote(blob))),
                        RawEvent(1, Some(NewCommitment(commitment, 0, Some(amount), Some(asset))))];
            && Walk([0, 0]) && Walk([0, 1, 1])
            && NotesFold(log, [0, 0]) == [blob, blob] && NotesFold(log, Straight(1)) == [blob]
            && Total(log, In, [0, 1, 1]) == 2 * amount && Total(log, In, Straight(2)) == amount
  {
    var log := [RawEvent(1, Some(EncryptedNote(blob))),
                RawEvent(1, Some(NewCommitment(commitment, 0, Some(amount), Some(asset))))];
    hide NotesFold, Total;
    OneOfEach(log, blob, commitment, amount, asset);
    StraightFolds(log, In, 1);
    StraightFolds(log, In, 2);
    PassAdds(log, In, Straight(1), 0, 1);
    PassAdds(log, In, Straight(2), 1, 2);
    assert Straight(1) + Range(0, 1) == [0, 0] && Straight(2) + Range(1, 2) == [0, 1, 1];
  }

  lemma OneOfEach(log: seq<RawEvent>, blob: Bytes, commitment: Node, amount: int, asset: string)
    requires |log| == 2 && log[0].decoded == Some(EncryptedNote(blob))
    requires log[1].decoded == Some(NewCommitment(commitment, 0, Some(amount), Some(asset)))
    ensures NotesIn(log, 0, 1) == [blob] && AmountIn(log, In, 0, 2) == amount == AmountIn(log, In, 1, 2)
  {
    assert NotesIn(log, 0, 0) == [] && AmountIn(log, In, 0, 0) == 0 == AmountIn(log, In, 1, 1);
    assert AmountIn(log, In, 0, 1) == 0;
  }
}

/** The indexer's ingest pass, with a failure or a crash possible at every
    statement boundary (crates/attesta-indexer/src/ingest.rs, crates/attesta-indexer/src/rpc.rs). */
module Ingest {
  import opened Hashing
  import opened Commitments
  import opened IngestSpec
  import opened Wrappers

  /** A row of `indexer_cursors`; the opaque page cursor stands for a log position. */
  datatype CursorRow = CursorRow(lastLedger: int, cursor: Option<nat>)

  datatype EventsPage = EventsPage(events: seq<RawEvent>, cursor: Option<nat>, latestLedger: int)

  ghost predicate LedgerOrder(log: seq<RawEvent>) {
    && (forall i :: 0 <= i < |log| ==> log[i].ledger >= 1)
    && (forall i, j :: 0 <= i < j < |log| ==> log[i].ledger <= log[j].ledger)
  }

  /** How many events the ledgers up to `ledger` hold. */
  function Closed(log: seq<RawEvent>, ledger: int): (n: nat)
    ensures n <= |log|
  {
    if log == [] then 0
    else if log[|log| - 1].ledger <= ledger then |log|
    else Closed(log[..|log| - 1], ledger)
  }

  lemma {:induction false} ClosedMeaning(log: seq<RawEvent>, ledger: int)
    requires LedgerOrder(log)
    ensures forall i :: 0 <= i < |log| ==> (i < Closed(log, ledger) <==> log[i].ledger <= ledger)
  {
    if log != [] && log[|log| - 1].ledger > ledger { ClosedMeaning(log[..|log| - 1], ledger); }
  }

  lemma {:induction false} NothingBeforeLedgerOne(log: seq<RawEvent>)
    requires LedgerOrder(log)
    ensures Closed(log, 0) == 0
  {
    if log != [] { NothingBeforeLedgerOne(log[..|log| - 1]); }
  }

  lemma ClosedGrows(log: seq<RawEvent>, a: int, b: int)
    requires LedgerOrder(log) && a <= b
    ensures Closed(log, a) <= Closed(log, b)
  {
    ClosedMeaning(log, a);
    ClosedMeaning(log, b);
    if Closed(log, a) > 0 { assert log[Closed(log, a) - 1].ledger <= a; }
  }

  /** Where a request reads from: the cursor, else the start ledger. */
  function From(log: seq<RawEvent>, startLedger: int, cursor: Option<nat>): nat {
    if cursor.Some? then cursor.value else Closed(log, startLedger - 1)
  }

  /** How one page of a pass ended. */
  datatype Round = Failed | More | Done

  /** How far the statements of one event got. */
  datatype Progress = Nothing | FirstStatement | Complete

  /** The chain as the RPC serves it. `log` is everything it will ever hold;
      events become visible ledger by ledger, up to the newest closed one. */
  class Chain {
    const log: seq<RawEvent>
    var head: int

    ghost predicate Valid()
      reads this
    {
      LedgerOrder(log) && head >= 0
    }

    function Visible(): nat
      reads this
    {
      Closed(log, head)
    }

    constructor (log: seq<RawEvent>)
      requires LedgerOrder(log)
      ensures Valid() && this.log == log && head == 0
    {
      this.log := log;
      head := 0;
    }

    /** `getEvents`: meanwhile ledgers may have closed. A page is a run of
        visible events of any positive length up to the limit, empty only when
        there is nothing more; a non-empty page carries a cursor, an empty one
        may or may not, and the latest ledger may be left out. */
    method GetEvents(startLedger: int, cursor: Option<nat>) returns (page: EventsPage)
      requires Valid() && From(log, startLedger, cursor) <= Visible()
      modifies this`head
      ensures Valid() && old(head) <= head && old(Visible()) <= Visible()
      ensures var at := From(log, startLedger, cursor);
              && at + |page.events| <= Visible() && page.events == log[at..at + |page.events|]
              && (page.events == [] <==> at == Visible())
              && (page.events != [] ==> page.cursor == Some(at + |page.events|))
              && (page.events == [] ==> page.cursor in {None, Some(at)})
              && (page.latestLedger == 0 || page.latestLedger == head)
    {
      var closed: int := *;
      ghost var before := head;
      if closed > 0 { head := head + closed; }
      ClosedGrows(log, before, head);
      var at := From(log, startLedger, cursor);
      var limit := if Visible() - at < 100 then Visible() - at else 100;
      var n: int := *;
      if n < 1 || n > limit { n := limit; }
      var withCursor: bool := *;
      var withLatest: bool := *;
      page := EventsPage(log[at..at + n], if n > 0 || withCursor then Some(at + n) else None, if withLatest then head else 0);
    }
  }

  /** Everything the indexer writes but its cursor. */
  datatype Tables = Tables(first: FirstWins, last: LastWins, notes: seq<Bytes>, totalIn: int, totalOut: int)

  /** What one event does to the tables, constructor by constructor; if not
      `complete`, only its first statement has run. */
  ghost predicate Stores(raw: RawEvent, t: Tables, complete: bool, t': Tables)
    requires raw.decoded.Some?
  {
    match raw.decoded.value
    case NewCommitment(c, i, deposit, asset) =>
      var taken := i in t.first.commitments
                   || exists k :: k in t.first.commitments && t.first.commitments[k].commitment == Stored32(c);
      && t'.first.commitments ==
           (if taken then t.first.commitments else t.first.commitments[i := CommitmentRow(Stored32(c), raw.ledger)])
      && t'.totalIn == t.totalIn + (if complete && deposit.Some? && asset.Some? then deposit.value else 0)
      && t' == t.(first := t.first.(commitments := t'.first.commitments), totalIn := t'.totalIn)
    case NullifierSpent(x) =>
      && t'.first.nullifiers == (if x in t.first.nullifiers then t.first.nullifiers else t.first.nullifiers[x := raw.ledger])
      && t' == t.(first := t.first.(nullifiers := t'.first.nullifiers))
    case EncryptedNote(blob) => t' == t.(notes := t.notes + [blob])
    case Withdrawal(amount, asset) => t' == t.(totalOut := t.totalOut + amount)
    case IssuerUpdated(issuer, record) =>
      && t'.first.registered ==
           (if issuer in t.first.registered then t.first.registered else t.first.registered[issuer := raw.ledger])
      && t' == t.(first := t.first.(registered := t'.first.registered), last := t.last[issuer := record])
  }

  ghost predicate TablesOk(log: seq<RawEvent>, visited: Visits, first: FirstWins, last: LastWins, notes: seq<Bytes>) {
    && InLog(log, visited) && Walk(visited)
    && first == FirstFold(log, visited)
    && last == LastFold(log, visited)
    && notes == NotesFold(log, visited)
  }

  ghost predicate TotalsOk(log: seq<RawEvent>, settled: Visits, totalIn: int, totalOut: int) {
    InLog(log, settled) && totalIn == Total(log, In, settled) && totalOut == Total(log, Out, settled)
  }

  /** One more event offered to the tables. */
  lemma Visit(log: seq<RawEvent>, h: Visits, i: nat, first: FirstWins, last: LastWins, notes: seq<Bytes>)
    requires TablesOk(log, h, first, last, notes) && i < |log| && i <= NextAfter(h)
    ensures TablesOk(log, h + [i], OfferFirst(first, log[i]), OfferLast(last, log[i]), notes + NoteOf(log[i]))
  {
    assert (h + [i])[..|h|] == h;
  }

  /** An undecodable event is passed over. */
  lemma Undecodable(raw: RawEvent, first: FirstWins, last: LastWins, notes: seq<Bytes>)
    ensures raw.decoded.None? ==>
              && OfferFirst(first, raw) == first && OfferLast(last, raw) == last && notes + NoteOf(raw) == notes
              && Amount(In, raw) == 0 == Amount(Out, raw)
  {}

  /** One more event booked. */
  lemma Settle(log: seq<RawEvent>, h: Visits, i: nat, totalIn: int, totalOut: int)
    requires TotalsOk(log, h, totalIn, totalOut) && i < |log|
    ensures TotalsOk(log, h + [i], totalIn + Amount(In, log[i]), totalOut + Amount(Out, log[i]))
  {
    assert (h + [i])[..|h|] == h;
  }

  /** A walk that stands at the end of what there is has converged. */
  lemma AtTheEnd(log: seq<RawEvent>, h: Visits, first: FirstWins, last: LastWins, notes: seq<Bytes>, n: nat)
    requires TablesOk(log, h, first, last, notes) && Reach(h) <= n <= NextAfter(h) && n <= |log|
    ensures NextAfter(h) == Reach(h) == n
    ensures first == FirstFold(log, Straight(n)) && last == LastFold(log, Straight(n))
  {
    WalkVisitsAll(h);
    FirstWinsConverges(log, h);
    LastWinsConverges(log, h);
  }

  /** Everything before `at` is settled and not above ledger `lastLedger`. */
  ghost predicate Behind(log: seq<RawEvent>, settled: Visits, at: nat, lastLedger: int)
    requires at <= |log|
  {
    forall i: nat :: i < at ==> i in settled && log[i].ledger <= lastLedger
  }

  lemma BehindLater(log: seq<RawEvent>, settled: Visits, settled': Visits, at: nat, lastLedger: int, lastLedger': int)
    requires at <= |log| && Behind(log, settled, at, lastLedger) && settled <= settled' && lastLedger <= lastLedger'
    ensures Behind(log, settled', at, lastLedger')
  {
    forall i: nat | i < at ensures i in settled' {
      assert i in settled;
      var k :| 0 <= k < |settled| && settled[k] == i;
      assert settled'[k] == i;
    }
  }

  lemma BehindNext(log: seq<RawEvent>, settled: Visits, at: nat, lastLedger: int, lastLedger': int)
    requires at < |log| && Behind(log, settled, at, lastLedger)
    requires lastLedger <= lastLedger' && log[at].ledger <= lastLedger'
    ensures Behind(log, settled + [at], at + 1, lastLedger')
  {
    assert (settled + [at])[|settled|] == at;
    BehindLater(log, settled, settled + [at], at, lastLedger, lastLedger');
  }

  lemma Reached(h: Visits, i: nat)
    ensures NextAfter(h + [i]) == i + 1
    ensures Reach(h + [i]) == if i + 1 > Reach(h) then i + 1 else Reach(h)
  {
    assert (h + [i])[..|h|] == h;
  }

  lemma RangeEmpty(h: Visits, at: nat)
    ensures h + Range(at, at) == h
  {}

  lemma RangeConcat(h: Visits, from: nat, mid: nat, to: nat)
    requires from <= mid <= to
    ensures h + Range(from, mid) + Range(mid, to) == h + Range(from, to)
  {}

  class Indexer {
    const chain: Chain
    /** This contract's `indexer_cursors` row. */
    var row: Option<CursorRow>
    var first: FirstWins
    var last: LastWins
    var notes: seq<Bytes>
    var totalIn: int
    var totalOut: int
    /** Events in the order their first statement ran (or would have run). */
    ghost var visited: Visits
    /** Events in the order they were completely stored or found undecodable. */
    ghost var settled: Visits

    /** The tables are exactly what the recorded work makes of the log. */
    ghost predicate DataOk()
      reads this
    {
      && TablesOk(chain.log, visited, first, last, notes)
      && TotalsOk(chain.log, settled, totalIn, totalOut)
      && Walk(settled) && Reach(settled) <= Reach(visited)
    }

    /** `at` and `lastLedger` are safe to persist. */
    ghost predicate CursorOk(at: nat, lastLedger: int)
      reads this, chain
    {
      && at <= NextAfter(visited) && at <= NextAfter(settled)
      && at <= chain.Visible() && 0 <= lastLedger <= chain.head
      && Behind(chain.log, settled, at, lastLedger)
    }

    ghost predicate Valid()
      reads this, chain
    {
      && chain.Valid() && DataOk()
      && Reach(visited) <= chain.Visible()
      && CursorOk(Position(), Ledger())
    }

    /** The log position the persisted cursor resumes at. */
    function Position(): nat
      reads this
    {
      if row.None? then 0 else From(chain.log, row.value.lastLedger + 1, row.value.cursor)
    }

    function Ledger(): int
      reads this
    {
      if row.None? then 0 else row.value.lastLedger
    }

    /** The persisted cursor stands at the furthest event: nothing will be repeated. */
    ghost predicate Clean()
      reads this, chain
    {
      Position() == Reach(visited) == Reach(settled)
    }

    /** The notes are those the log holds up to the furthest event. */
    ghost predicate NotesOk()
      reads this, chain
      requires Valid()
    {
      notes == NotesIn(chain.log, 0, Reach(visited))
    }

    function TotalOf(side: Side): int
      reads this
    {
      if side.In? then totalIn else totalOut
    }

    /** How far a total is off from the deposits or withdrawals settled so far. */
    ghost function Surplus(side: Side): int
      reads this, chain
      requires Valid()
    {
      TotalOf(side) - AmountIn(chain.log, side, 0, Reach(settled))
    }

    constructor (chain: Chain)
      requires chain.Valid()
      ensures Valid() && this.chain == chain && row == None && visited == [] && settled == []
      ensures Clean() && NotesOk() && Surplus(In) == 0 == Surplus(Out)
    {
      this.chain := chain;
      row := None;
      first, last, notes := EMPTY, map[], [];
      totalIn, totalOut := 0, 0;
      visited, settled := [], [];
    }

    ghost function Written(): Tables
      reads this
    {
      Tables(first, last, notes, totalIn, totalOut)
    }

    /** The statements of `store_event`. If it `mayFail`, the process may die
        before any of them. */
    method StoreEvent(raw: RawEvent, mayFail: bool) returns (p: Progress)
      requires raw.decoded.Some?
      modifies this`first, this`last, this`notes, this`totalIn, this`totalOut
      ensures !mayFail ==> p.Complete?
      ensures p.Nothing? ==> Written() == old(Written())
      ensures !p.Nothing? ==> Stores(raw, old(Written()), p.Complete?, Written())
      ensures p.FirstStatement? ==> raw.decoded.value.NewCommitment?
      ensures p.Nothing? ==> first == old(first) && last == old(last) && notes == old(notes)
      ensures !p.Nothing? ==>
                && first == OfferFirst(old(first), raw) && last == OfferLast(old(last), raw)
                && notes == old(notes) + NoteOf(raw)
      ensures totalIn == old(totalIn) + if p.Complete? then Amount(In, raw) else 0
      ensures totalOut == old(totalOut) + if p.Complete? then Amount(Out, raw) else 0
    {
      var dies: bool := *;
      if mayFail && dies { return Nothing; }
      match raw.decoded.value {
        case NewCommitment(commitment, leafIndex, deposit, asset) =>
          first := InsertCommitment(first, raw.decoded.value, raw.ledger);
          if deposit.Some? && asset.Some? {
            var diesBetween: bool := *;
            if mayFail && diesBetween { return FirstStatement; }
            AddPoolTotal(deposit.value, 0);
          }
        case NullifierSpent(nullifier) =>
          first := InsertNullifier(first, nullifier, raw.ledger);
        case EncryptedNote(blob) =>
          notes := notes + [blob];
        case Withdrawal(amount, asset) =>
          AddPoolTotal(0, amount);
        case IssuerUpdated(issuer, record) =>
          first := Register(first, issuer, raw.ledger);
          last := last[issuer := record];
      }
      p := Complete;
    }

    method AddPoolTotal(inflow: int, outflow: int)
      modifies this`totalIn, this`totalOut
      ensures totalIn == old(totalIn) + inflow && totalOut == old(totalOut) + outflow
    {
      totalIn, totalOut := totalIn + inflow, totalOut + outflow;
    }

    /** One event of a page: stored, or counted as undecodable and passed over.
        False means a statement failed or the process died: the event's first
        statement may have run, but the event is not settled. */
    method HandleEvent(raw: RawEvent, mayFail: bool, ghost i: nat) returns (ok: bool, ghost half: bool)
      requires DataOk() && i < |chain.log| && raw == chain.log[i] && i <= NextAfter(visited) && i <= NextAfter(settled)
      modifies this`first, this`last, this`notes, this`totalIn, this`totalOut, this`visited, this`settled
      ensures DataOk() && (!mayFail ==> ok)
      ensures ok ==> !half && visited == old(visited) + [i] && settled == old(settled) + [i]
      ensures !ok ==> visited == (if half then old(visited) + [i] else old(visited)) && settled == old(settled)
    {
      hide TablesOk, TotalsOk, Reach, Walk, OfferFirst, OfferLast, NoteOf, Amount;
      Undecodable(raw, first, last, notes);
      Visit(chain.log, visited, i, first, last, notes);
      Settle(chain.log, settled, i, totalIn, totalOut);
      WalkSnoc(settled, i);
      Reached(visited, i);
      var p := Complete;
      if raw.decoded.Some? { p := StoreEvent(raw, mayFail); }
      if !p.Nothing? { visited := visited + [i]; }
      if p.Complete? { settled := settled + [i]; }
      ok, half := p.Complete?, p.FirstStatement?;
    }

    /** What a pass has done since it resumed at `from`, with `visited0` and
        `settled0` before it: the events up to `to` are settled, each worked on
        once; if `half`, the first statement of the next event has run too. */
    ghost predicate Did(visited0: Visits, settled0: Visits, from: nat, to: nat, half: bool)
      reads this
    {
      && from <= to
      && settled == settled0 + Range(from, to)
      && visited == visited0 + Range(from, if half then to + 1 else to)
    }

    /** What holds between any two statements of a pass that stands at `at`. */
    ghost predicate PassOk(at: nat, lastLedger: int)
      reads this, chain
    {
      && chain.Valid() && DataOk() && Reach(visited) <= chain.Visible()
      && CursorOk(Position(), Ledger()) && CursorOk(at, lastLedger)
      && Position() <= at && Ledger() <= lastLedger
    }

    /** One event of a pass that stands at `at`. */
    method HandleNext(raw: RawEvent, mayFail: bool, ghost at: nat, lastLedger: int) returns (ok: bool, lastLedger': int, ghost half: bool)
      requires PassOk(at, lastLedger) && at < chain.Visible() && raw == chain.log[at]
      modifies this`first, this`last, this`notes, this`totalIn, this`totalOut, this`visited, this`settled
      ensures Valid() && (!mayFail ==> ok)
      ensures ok ==> PassOk(at + 1, lastLedger') && lastLedger <= lastLedger'
      ensures ok ==> !half && visited == old(visited) + [at] && settled == old(settled) + [at]
      ensures !ok ==> visited == (if half then old(visited) + [at] else old(visited)) && settled == old(settled)
    {
      hide TablesOk, TotalsOk, Behind, Reach, Walk, Closed;
      ghost var settledBefore := settled;
      Reached(visited, at);
      Reached(settled, at);
      ClosedMeaning(chain.log, chain.head);
      ok, half := HandleEvent(raw, mayFail, at);
      lastLedger' := lastLedger;
      BehindLater(chain.log, settledBefore, settled, Position(), Ledger(), Ledger());
      if ok {
        lastLedger' := if raw.ledger > lastLedger then raw.ledger else lastLedger;
        BehindNext(chain.log, settledBefore, at, lastLedger, lastLedger');
      }
    }

    method HandlePage(events: seq<RawEvent>, mayFail: bool, ghost at: nat, lastLedger: int)
      returns (ok: bool, lastLedger': int, ghost to: nat, ghost half: bool)
      requires PassOk(at, lastLedger) && at + |events| <= chain.Visible() && events == chain.log[at..at + |events|]
      modifies this`first, this`last, this`notes, this`totalIn, this`totalOut, this`visited, this`settled
      ensures !mayFail ==> ok
      ensures Valid() && to <= chain.Visible() && Did(old(visited), old(settled), at, to, half)
      ensures ok ==> !half && to == at + |events| && PassOk(to, lastLedger') && lastLedger <= lastLedger'
    {
      hide PassOk, Valid, Closed;
      lastLedger', to, half := lastLedger, at, false;
      RangeEmpty(visited, at);
      RangeEmpty(settled, at);
      PassIsValid(at, lastLedger);
      for k := 0 to |events|
        invariant to == at + k && !half && Did(old(visited), old(settled), at, to, false)
        invariant PassOk(to, lastLedger') && Valid() && lastLedger <= lastLedger'
      {
        RangeSnoc(old(visited), at, to);
        RangeSnoc(old(settled), at, to);
        ok, lastLedger', half := HandleNext(events[k], mayFail, to, lastLedger');
        if !ok { return; }
        to := to + 1;
      }
      ok := true;
    }

    lemma PassIsValid(at: nat, lastLedger: int)
      requires PassOk(at, lastLedger)
      ensures Valid()
    {}

    /** Read the next page; whatever closes meanwhile, the pass stays in order. */
    method Fetch(lastLedger: int, cursor: Option<nat>) returns (page: EventsPage)
      requires PassOk(From(chain.log, lastLedger + 1, cursor), lastLedger)
      modifies chain`head
      ensures old(chain.head) <= chain.head && old(chain.Visible()) <= chain.Visible()
      ensures Position() == old(Position()) && Ledger() == old(Ledger())
      ensures var at := From(chain.log, lastLedger + 1, cursor);
              && PassOk(at, lastLedger)
              && at + |page.events| <= chain.Visible() && page.events == chain.log[at..at + |page.events|]
              && (page.events == [] <==> at == chain.Visible())
              && (page.events != [] ==> page.cursor == Some(at + |page.events|))
              && (page.events == [] ==> page.cursor in {None, Some(at)})
              && (page.latestLedger == 0 || page.latestLedger == chain.head)
    {
      hide TablesOk, TotalsOk, Behind, Reach, Walk, Closed;
      page := chain.GetEvents(lastLedger + 1, cursor);
    }

    /** Upsert the cursor row. */
    method Persist(ghost at: nat, lastLedger: int, cursor: Option<nat>)
      requires PassOk(at, lastLedger) && at == From(chain.log, lastLedger + 1, cursor)
      modifies this`row
      ensures PassOk(at, lastLedger) && Valid() && row == Some(CursorRow(lastLedger, cursor)) && Position() == at
    {
      hide TablesOk, TotalsOk, Behind, Reach, Walk, Closed;
      row := Some(CursorRow(lastLedger, cursor));
    }

    /** A later ledger, up to the newest closed one, is as safe to persist. */
    lemma LaterLedger(at: nat, lastLedger: int, lastLedger': int)
      requires PassOk(at, lastLedger) && lastLedger <= lastLedger' <= chain.head
      ensures PassOk(at, lastLedger')
    {
      BehindLater(chain.log, settled, settled, at, lastLedger, lastLedger');
    }

    lemma ResumeFromHere(at: nat, lastLedger: int)
      requires PassOk(at, lastLedger) && at == chain.Visible()
      ensures From(chain.log, lastLedger + 1, None) == at
    {
      ResumeFromLedger(at, lastLedger);
    }

    /** One round of the loop: fetch, handle, persist the cursor. */
    method SyncPage(lastLedger: int, cursor: Option<nat>, mayFail: bool)
      returns (r: Round, lastLedger': int, cursor': Option<nat>, ghost to: nat, ghost half: bool)
      requires PassOk(From(chain.log, lastLedger + 1, cursor), lastLedger)
      modifies this, chain`head
      ensures !mayFail ==> !r.Failed?
      ensures Valid() && old(chain.head) <= chain.head && old(chain.Visible()) <= chain.Visible()
      ensures old(Position()) <= Position() && old(Ledger()) <= Ledger()
      ensures to <= chain.Visible() && Did(old(visited), old(settled), From(chain.log, lastLedger + 1, cursor), to, half)
      ensures !r.Failed? ==>
                && !half && to == From(chain.log, lastLedger' + 1, cursor')
                && PassOk(to, lastLedger') && row == Some(CursorRow(lastLedger', cursor'))
                && (r.Done? ==> to == chain.Visible())
                && (r.More? ==> From(chain.log, lastLedger + 1, cursor) < to)
    {
      hide DataOk, Behind, Reach, Walk, Closed;
      lastLedger', cursor' := lastLedger, cursor;
      ghost var at := From(chain.log, lastLedger + 1, cursor);
      to, half := at, false;
      RangeEmpty(visited, at);
      RangeEmpty(settled, at);
      PassIsValid(at, lastLedger);
      var dies: bool := *;
      if mayFail && dies { return Failed, lastLedger', cursor', to, half; }
      var page := Fetch(lastLedger, cursor);
      var handled;
      handled, lastLedger', to, half := HandlePage(page.events, mayFail, at, lastLedger);
      if !handled { return Failed, lastLedger', cursor', to, half; }
      var done := page.events == [];
      cursor' := page.cursor;
      if done && page.latestLedger > lastLedger' {
        LaterLedger(to, lastLedger', page.latestLedger);
        lastLedger' := page.latestLedger;
      }
      if cursor'.None? { ResumeFromHere(to, lastLedger'); }
      dies := *;
      if mayFail && dies { return Failed, lastLedger', cursor', to, half; }
      Persist(to, lastLedger', cursor');
      r := if done then Done else More;
    }

    /** `sync_contract`: page after page until an empty one, persisting the
        cursor after each. It may fail or die anywhere. Whatever happens, the
        persisted cursor has not passed an event that is not settled, neither
        it nor the ledger has moved back, and the pass has worked on exactly
        the events from its resume position up to `to`, in order, each once.
        A pass that ends well ends at the last visible event, and leaves the
        first-wins and last-wins tables a single crash-free pass would have left. */
    method SyncContract(mayFail: bool) returns (ok: bool, ghost to: nat, ghost half: bool)
      requires Valid()
      modifies this, chain`head
      ensures !mayFail ==> ok
      ensures Valid() && old(chain.head) <= chain.head && old(chain.Visible()) <= chain.Visible()
      ensures old(Position()) <= Position() && old(Ledger()) <= Ledger()
      ensures to <= chain.Visible() && Did(old(visited), old(settled), old(Position()), to, half)
      ensures ok ==>
                && !half && to == Position() == chain.Visible() == NextAfter(visited) == Reach(visited)
                && first == FirstFold(chain.log, Straight(to))
                && last == LastFold(chain.log, Straight(to))
    {
      hide TablesOk, TotalsOk, Behind, Reach, Walk, Closed;
      var dies: bool := *;
      ghost var from := Position();
      to, half := from, false;
      RangeEmpty(visited, from);
      RangeEmpty(settled, from);
      if mayFail && dies { return false, to, half; }
      var lastLedger := if row.None? then 0 else row.value.lastLedger;
      var cursor := if row.None? then None else row.value.cursor;
      NothingBeforeLedgerOne(chain.log);
      var r := More;
      while r.More?
        invariant r.Failed? ==> Valid() && to <= chain.Visible()
        invariant !r.Failed? ==> PassOk(to, lastLedger) && to == From(chain.log, lastLedger + 1, cursor) && !half
        invariant Did(old(visited), old(settled), from, to, half)
        invariant r.Done? ==> Position() == to == chain.Visible()
        invariant !mayFail ==> !r.Failed?
        invariant old(chain.head) <= chain.head && old(chain.Visible()) <= chain.Visible()
        invariant old(Position()) <= Position() && old(Ledger()) <= Ledger()
        decreases r.More?, |chain.log| - From(chain.log, lastLedger + 1, cursor)
      {
        ghost var at := to;
        r, lastLedger, cursor, to, half := SyncPage(lastLedger, cursor, mayFail);
        RangeConcat(old(visited), from, at, if half then to + 1 else to);
        RangeConcat(old(settled), from, at, to);
      }
      ok := r.Done?;
      if ok { AtTheEnd(chain.log, visited, first, last, notes, to); }
    }

    /** What validity says about the recorded work. */
    lemma Known()
      requires Valid()
      ensures InLog(chain.log, visited) && Walk(visited) && InLog(chain.log, settled) && Walk(settled)
      ensures notes == NotesFold(chain.log, visited)
      ensures forall side :: TotalOf(side) == Total(chain.log, side, settled)
      ensures Reach(settled) <= Reach(visited) <= chain.Visible() <= |chain.log|
      ensures Position() <= NextAfter(visited) && Position() <= NextAfter(settled)
    {}

    /** What a pass over `from..to` has made of the tables it found. */
    lemma Effect(v0: Visits, s0: Visits, from: nat, to: nat, half: bool)
      requires Valid() && InLog(chain.log, v0) && InLog(chain.log, s0)
      requires to <= chain.Visible() && Did(v0, s0, from, to, half)
      ensures half ==> to < |chain.log|
      ensures notes == NotesFold(chain.log, v0) + NotesIn(chain.log, from, if half then to + 1 else to)
      ensures forall side :: TotalOf(side) == Total(chain.log, side, s0) + AmountIn(chain.log, side, from, to)
    {
      hide NotesFold, Total, NotesIn, AmountIn, Walk, Reach;
      Known();
      if half {
        RangeSnoc(v0, from, to);
        assert visited[|visited| - 1] == to;
      }
      PassAdds(chain.log, In, v0, from, if half then to + 1 else to);
      forall side: Side ensures TotalOf(side) == Total(chain.log, side, s0) + AmountIn(chain.log, side, from, to) {
        PassAdds(chain.log, side, s0, from, to);
      }
    }

    /** What a pass that ended well has made of them. */
    lemma Finish(v0: Visits, s0: Visits, from: nat, to: nat)
      requires Valid() && Did(v0, s0, from, to, false) && to == Reach(visited) == chain.Visible()
      requires InLog(chain.log, v0) && Walk(v0) && InLog(chain.log, s0) && Walk(s0)
      requires from <= NextAfter(v0) && from <= NextAfter(s0) && Reach(s0) <= Reach(v0) <= to
      ensures Reach(settled) == to
      ensures NotesOk() <==> NotesExact(chain.log, v0) && NotesIn(chain.log, from, Reach(v0)) == []
      ensures forall side ::
                Surplus(side) == Total(chain.log, side, s0) - AmountIn(chain.log, side, 0, Reach(s0))
                                 + AmountIn(chain.log, side, from, Reach(s0))
    {
      hide NotesFold, Total, NotesIn, AmountIn, Walk, Reach, NextAfter, InLog;
      Known();
      PassReach(s0, from, to);
      WalkReach(s0);
      PassKeepsNotesIff(chain.log, v0, from, to);
      forall side: Side
        ensures Surplus(side) == Total(chain.log, side, s0) - AmountIn(chain.log, side, 0, Reach(s0))
                                 + AmountIn(chain.log, side, from, Reach(s0))
      {
        PassMovesSurplus(chain.log, side, s0, from, to);
      }
    }

    /** One turn of the polling loop; a failed pass is tried again next turn.
        What it adds to notes and totals is what the events it worked on hold.
        After a pass that ended well the notes are exact if and only if they
        were before and the log holds none between the position the pass resumed
        at and the furthest event; and a total is off by what it was off
        before, plus what the log moves in the part that was booked again. */
    method PollOnce(mayFail: bool) returns (ok: bool, ghost to: nat, ghost half: bool)
      requires Valid()
      modifies this, chain`head
      ensures !mayFail ==> ok
      ensures Valid() && (half ==> to < |chain.log|) && to <= chain.Visible()
      ensures old(Position()) <= to
      ensures notes == old(notes) + Blobs(chain.log[old(Position())..if half then to + 1 else to])
      ensures totalIn == old(totalIn) + Deposits(chain.log[old(Position())..to])
      ensures totalOut == old(totalOut) + Withdrawals(chain.log[old(Position())..to])
      ensures ok ==>
                && Clean() && to == Position() == chain.Visible()
                && first == FirstFold(chain.log, Straight(to)) && last == LastFold(chain.log, Straight(to))
                && (NotesOk() <==> old(NotesOk()) && NotesIn(chain.log, old(Position()), old(Reach(visited))) == [])
      ensures ok ==>
                forall side ::
                  Surplus(side) == old(Surplus(side)) + AmountIn(chain.log, side, old(Position()), old(Reach(settled)))
      ensures ok ==>
                forall side :: NonNegative(chain.log, side, 0, old(Reach(settled))) ==>
                  (Surplus(side) == 0 <==>
                     old(Surplus(side)) == 0
                     && forall i: nat :: old(Position()) <= i < old(Reach(settled)) ==> Amount(side, chain.log[i]) == 0)
    {
      hide Valid, Walk, InLog, NotesIn, AmountIn, Amount, NonNegative, FirstFold, LastFold, NotesFold, Total, Reach, NextAfter,
           Straight;
      ghost var v0, s0, from := visited, settled, Position();
      Known();
      forall side | NonNegative(chain.log, side, 0, Reach(settled))
        ensures Surplus(side) + AmountIn(chain.log, side, Position(), Reach(settled)) == 0 <==>
                Surplus(side) == 0 && forall i: nat :: Position() <= i < Reach(settled) ==> Amount(side, chain.log[i]) == 0
      {
        TotalStaysExactIff(side);
      }
      ok, to, half := SyncContract(mayFail);
      Effect(v0, s0, from, to, half);
      LogHolds(chain.log, from, to);
      LogHolds(chain.log, from, if half then to + 1 else to);
      assert totalIn == TotalOf(In) && totalOut == TotalOf(Out);
      if ok { Finish(v0, s0, from, to); }
    }

    /** The polling loop, for a number of turns. In a run without failures the
        tables are those a single pass over the visible log makes: the notes are
        the log's notes, the totals its deposits and withdrawals. */
    method Poll(turns: nat, mayFail: bool) returns (noFailures: bool)
      requires Valid() && Clean() && NotesOk() && Surplus(In) == 0 == Surplus(Out)
      modifies this, chain`head
      ensures Valid() && (!mayFail ==> noFailures)
      ensures noFailures ==> Clean() && NotesOk() && Surplus(In) == 0 == Surplus(Out)
      ensures noFailures && turns > 0 ==>
                && Position() == chain.Visible()
                && first == FirstFold(chain.log, Straight(chain.Visible()))
                && last == LastFold(chain.log, Straight(chain.Visible()))
                && notes == Blobs(chain.log[..chain.Visible()])
                && totalIn == Deposits(chain.log[..chain.Visible()])
                && totalOut == Withdrawals(chain.log[..chain.Visible()])
    {
      hide Valid, NotesIn, AmountIn, FirstFold, LastFold, Reach, Straight;
      noFailures := true;
      for k := 0 to turns
        invariant Valid() && (!mayFail ==> noFailures)
        invariant noFailures ==> Clean() && NotesOk() && Surplus(In) == 0 == Surplus(Out)
        invariant noFailures && k > 0 ==>
                    && Position() == chain.Visible()
                    && first == FirstFold(chain.log, Straight(chain.Visible()))
                    && last == LastFold(chain.log, Straight(chain.Visible()))
      {
        Known();
        NothingIn(Position());
        var ok;
        ghost var to, half;
        ok, to, half := PollOnce(mayFail);
        noFailures := noFailures && ok;
      }
      LogHolds(chain.log, 0, chain.Visible());
      assert chain.log[0..chain.Visible()] == chain.log[..chain.Visible()];
    }

    lemma NothingIn(at: nat)
      requires at <= |chain.log|
      ensures NotesIn(chain.log, at, at) == []
      ensures forall side :: AmountIn(chain.log, side, at, at) == 0
    {}

    /** Also in mid-pass and after any crash, what only the first offer can set
        is what one crash-free pass up to the furthest event would have set. */
    lemma FirstWinsAlwaysConverged()
      requires Valid()
      ensures Reach(visited) <= |chain.log| && first == FirstFold(chain.log, Straight(Reach(visited)))
    {
      FirstWinsConverges(chain.log, visited);
    }

    /** Notes, at every moment: those of a crash-free pass exactly if none was stored twice. */
    lemma NotesExactIffStoredOnce()
      requires Valid()
      ensures Reach(visited) <= |chain.log|
      ensures notes == NotesFold(chain.log, Straight(Reach(visited))) <==> NotesOnce(chain.log, multiset(visited))
    {
      NotesAreExactIffStoredOnce(chain.log, visited);
    }

    /** Totals, once every visible event is settled: the log's deposits and
        withdrawals exactly if no event with a positive amount was booked twice. */
    lemma TotalsExactIffBookedOnce()
      requires Valid() && Position() == chain.Visible()
      requires forall i: nat, side :: i < chain.Visible() ==> Amount(side, chain.log[i]) >= 0
      ensures totalIn == Deposits(chain.log[..chain.Visible()])
              <==> BookedOnce(chain.log, In, multiset(settled), chain.Visible())
      ensures totalOut == Withdrawals(chain.log[..chain.Visible()])
              <==> BookedOnce(chain.log, Out, multiset(settled), chain.Visible())
    {
      var n := chain.Visible();
      WalkVisitsAll(settled);
      assert forall i: nat :: i in settled <==> i < n;
      LogHolds(chain.log, 0, n);
      assert chain.log[0..n] == chain.log[..n];
      StraightFolds(chain.log, In, n);
      StraightFolds(chain.log, Out, n);
      TotalIsExactIffBookedOnce(chain.log, In, settled, n);
      TotalIsExactIffBookedOnce(chain.log, Out, settled, n);
    }

    /** When a pass that ends well leaves a total exact, if amounts are not
        negative: if and only if it was exact and nothing on that side lies
        between the persisted position and the furthest settled event. */
    lemma TotalStaysExactIff(side: Side)
      requires Valid() && NonNegative(chain.log, side, 0, Reach(settled))
      ensures Surplus(side) >= 0
      ensures Surplus(side) + AmountIn(chain.log, side, Position(), Reach(settled)) == 0 <==>
              Surplus(side) == 0 && forall i: nat :: Position() <= i < Reach(settled) ==> Amount(side, chain.log[i]) == 0
    {
      Known();
      WalkVisitsAll(settled);
      StraightFolds(chain.log, side, Reach(settled));
      TotalIsExactIffBookedOnce(chain.log, side, settled, Reach(settled));
      NothingMoved(chain.log, side, Position(), Reach(settled));
    }

    /** After an empty page without a cursor, the next ledger is the next event. */
    lemma ResumeFromLedger(at: nat, lastLedger: int)
      requires chain.Valid() && CursorOk(at, lastLedger) && at == chain.Visible()
      ensures Closed(chain.log, lastLedger) == at
    {
      ClosedMeaning(chain.log, lastLedger);
      ClosedGrows(chain.log, lastLedger, chain.head);
      if at > 0 { assert chain.log[at - 1].ledger <= lastLedger; }
    }
  }
}

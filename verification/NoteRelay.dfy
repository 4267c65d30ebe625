/** The encrypted-note relay: table, fan-out, bounded broadcast ring and one
    resumable stream (crates/attesta-api/src/routes/notes.rs). */
module StreamEvents {
  import opened NoteTable
  import opened Wrappers

  datatype Event = NoteEvent(note: Note) | Resync

  /** What a broadcast receiver yields: a note, or the report that it lagged. */
  datatype Received = Message(note: Note) | Lagged

  /** The live half of the stream, one received item: the new `last_seen` and
      at most one event. */
  function Receive(filter: PoolFilter, lastSeen: int, msg: Received): (int, seq<Event>) {
    match msg
    case Lagged => (lastSeen, [Resync])
    case Message(note) =>
      if note.id <= lastSeen then (lastSeen, [])
      else if !InPools(filter, note) then (note.id, [])
      else (note.id, [NoteEvent(note)])
  }

  function NoteEvents(notes: seq<Note>): (events: seq<Event>)
    ensures |events| == |notes|
  {
    seq(|notes|, i requires 0 <= i < |notes| => NoteEvent(notes[i]))
  }

  /** The promise kept to a client: its events are the due notes in order,
      except that a `resync` may stand for any run of due notes, also none. */
  ghost predicate Explains(events: seq<Event>, due: seq<Note>) {
    if events == [] then due == []
    else
      var last, init := events[|events| - 1], events[..|events| - 1];
      if last.NoteEvent? then due != [] && due[|due| - 1] == last.note && Explains(init, due[..|due| - 1])
      else exists k :: 0 <= k <= |due| && Explains(init, due[..k])
  }

  lemma ExplainsNote(events: seq<Event>, due: seq<Note>, note: Note)
    requires Explains(events, due)
    ensures Explains(events + [NoteEvent(note)], due + [note])
  {
    assert (events + [NoteEvent(note)])[..|events|] == events;
    assert (due + [note])[..|due|] == due;
  }

  lemma ExplainsResync(events: seq<Event>, due: seq<Note>, skipped: seq<Note>)
    requires Explains(events, due)
    ensures Explains(events + [Resync], due + skipped)
  {
    assert (events + [Resync])[..|events|] == events;
    assert (due + skipped)[..|due|] == due;
  }

  lemma {:induction false} ExplainsReplay(rows: seq<Note>)
    ensures Explains(NoteEvents(rows), rows)
  {
    if rows != [] {
      ExplainsReplay(rows[..|rows| - 1]);
      assert NoteEvents(rows)[..|rows| - 1] == NoteEvents(rows[..|rows| - 1]);
    }
  }

  /** Without a resync nothing is left out and nothing is repeated. */
  lemma {:induction false} NoResyncIsExact(events: seq<Event>, due: seq<Note>)
    requires Explains(events, due) && Resync !in events
    ensures events == NoteEvents(due)
  {
    if events != [] {
      var n := |events| - 1;
      assert events[n] in events;
      NoResyncIsExact(events[..n], due[..|due| - 1]);
      assert NoteEvents(due)[..n] == NoteEvents(due[..|due| - 1]);
    }
  }

  /** The resync at `c` stands where note `m` is missing. */
  ghost predicate ResyncAt(events: seq<Event>, m: Note, c: int) {
    && 0 <= c < |events| && events[c].Resync?
    && (forall i :: 0 <= i < c && events[i].NoteEvent? ==> events[i].note.id < m.id)
    && (forall i :: c < i < |events| && events[i].NoteEvent? ==> events[i].note.id > m.id)
  }

  ghost predicate IdsIncrease(events: seq<Event>) {
    forall i, j :: 0 <= i < j < |events| && events[i].NoteEvent? && events[j].NoteEvent? ==>
      events[i].note.id < events[j].note.id
  }

  lemma {:induction false} EmittedAreDue(events: seq<Event>, due: seq<Note>)
    requires Explains(events, due)
    ensures forall i :: 0 <= i < |events| && events[i].NoteEvent? ==> events[i].note in due
  {
    if events != [] {
      var k := LastStep(events, due);
      var init := events[..|events| - 1];
      EmittedAreDue(init, due[..k]);
      forall i | 0 <= i < |events| && events[i].NoteEvent? ensures events[i].note in due {
        if i < |init| { assert init[i].note in due[..k]; }
      }
    }
  }

  /** Emitted ids strictly increase. */
  lemma {:induction false} EmittedInOrder(events: seq<Event>, due: seq<Note>)
    requires Explains(events, due) && InIdOrder(due)
    ensures IdsIncrease(events)
  {
    if events != [] {
      var k := LastStep(events, due);
      var init, last := events[..|events| - 1], events[|events| - 1];
      EmittedInOrder(init, due[..k]);
      EmittedAreDue(init, due[..k]);
      if last.NoteEvent? {
        forall i | 0 <= i < |init| && init[i].NoteEvent? ensures init[i].note.id < last.note.id {
          assert init[i].note in due[..k];
        }
      }
      IdsIncreaseSnoc(init, last);
      assert events == init + [last];
    }
  }

  lemma IdsIncreaseSnoc(init: seq<Event>, last: Event)
    requires IdsIncrease(init)
    requires last.NoteEvent? ==> forall i :: 0 <= i < |init| && init[i].NoteEvent? ==> init[i].note.id < last.note.id
    ensures IdsIncrease(init + [last])
  {}

  /** How far the events before the last one explain the due notes. */
  lemma LastStep(events: seq<Event>, due: seq<Note>) returns (k: nat)
    requires Explains(events, due) && events != []
    ensures k <= |due| && Explains(events[..|events| - 1], due[..k])
    ensures events[|events| - 1].NoteEvent? ==> k == |due| - 1 && due[k] == events[|events| - 1].note
  {
    if events[|events| - 1].NoteEvent? { k := |due| - 1; }
    else { k :| 0 <= k <= |due| && Explains(events[..|events| - 1], due[..k]); }
  }

  /** Nothing is skipped silently: a due note that was not emitted has a resync
      exactly where it would have stood. */
  lemma {:induction false} MissingMeansResync(events: seq<Event>, due: seq<Note>, m: Note) returns (c: int)
    requires Explains(events, due) && InIdOrder(due)
    requires m in due && NoteEvent(m) !in events
    ensures ResyncAt(events, m, c)
  {
    var last, init := events[|events| - 1], events[..|events| - 1];
    var k := LastStep(events, due);
    var p :| 0 <= p < |due| && due[p] == m;
    if p < k {
      assert due[..k][p] == m;
      c := MissingMeansResync(init, due[..k], m);
      if last.NoteEvent? { assert m.id < due[k].id; }
    } else {
      assert last in events;
      EmittedAreDue(init, due[..k]);
      c := |init|;
    }
  }
}

module NoteRelay {
  import opened NoteTable
  import opened Wrappers
  import opened StreamEvents

  const REPLAY_LIMIT := 5_000
  const DRAIN_PAGE := 1_000
  /** `broadcast::channel(1024)`. */
  const RING := 1_024

  /** The fan-out task: where it started reading, its cursor, and the fetched
      rows it has not sent yet. */
  datatype Poller =
    | NotStarted
    | Started(start: nat, lastId: int, batch: seq<Note>)

  /** One connection. `pos` is its receive position in the broadcast log.
      `early`: it subscribed before the fan-out had read its starting id.
      The four indexes only record what the stream is accountable for: rows
      `base..high`, except rows `lostFrom..lostTo`. */
  datatype Stream =
    | Closed
    | Subscribed(filter: PoolFilter, cursor: int, pos: nat, early: bool)
    | Live(filter: PoolFilter, cursor: int, pos: nat, early: bool, resumed: bool, lastSeen: int,
           emitted: seq<Event>, base: nat, high: nat, lostFrom: nat, lostTo: nat)

  /** `sent` is everything ever broadcast; the ring holds its last `RING` items. */
  datatype State = State(table: seq<Note>, poller: Poller, sent: seq<Note>, stream: Stream)

  datatype Action =
    | InsertNote(note: Note)
    | StartPoller(queryOk: bool)
    | PollQuery
    | PollSend
    | Subscribe(since: Option<int>, filter: PoolFilter)
    | Replay
    | ReceiveOne

  function Init(): State {
    State([], NotStarted, [], Closed)
  }

  function MaxId(table: seq<Note>): int {
    if table == [] then 0 else table[|table| - 1].id
  }

  function Max(a: nat, b: nat): nat {
    if a < b then b else a
  }

  /** Index of the next row the stream will receive. */
  function NextRow(p: Poller, pos: nat): nat
    requires p.Started?
  {
    p.start + pos
  }

  function StartStream(st: Stream, start: nat): Stream {
    if !st.Live? then st
    else if !st.resumed then st.(base := start, high := start, lostFrom := start, lostTo := start)
    else if start > st.high then st.(lostFrom := st.high, lostTo := start, high := start)
    else st
  }

  function ReplayStream(table: seq<Note>, poller: Poller, st: Stream): Stream
    requires st.Subscribed?
  {
    var rows := Query(table, st.filter, st.cursor, REPLAY_LIMIT);
    var overflow := |rows| == REPLAY_LIMIT;
    var last := if rows == [] then st.cursor else rows[|rows| - 1].id;
    var events := NoteEvents(rows) + if overflow then [Resync] else [];
    var seen := Cut(table, st.filter, st.cursor, REPLAY_LIMIT, |table|);
    var high := if overflow && poller.Started? then Max(seen, NextRow(poller, st.pos)) else seen;
    Live(st.filter, st.cursor, st.pos, st.early, true, last, events, 0, high, 0, 0)
  }

  function ReceiveStream(poller: Poller, sent: seq<Note>, st: Stream): Stream
    requires st.Live? && poller.Started? && st.pos < |sent|
  {
    var lagged := |sent| - st.pos > RING;
    var pos' := if lagged then |sent| - RING else st.pos + 1;
    var r := Receive(st.filter, st.lastSeen, if lagged then Lagged else Message(sent[st.pos]));
    st.(pos := pos', lastSeen := r.0, emitted := st.emitted + r.1, high := Max(st.high, NextRow(poller, pos')))
  }

  function Step(s: State, a: Action): State {
    match a
    case InsertNote(note) =>
      if note.id > 0 && note.id > MaxId(s.table) then s.(table := s.table + [note]) else s
    case StartPoller(queryOk) =>
      if s.poller.Started? then s
      else
        // a failed query falls back to id 0
        var start := if queryOk then |s.table| else 0;
        s.(poller := Started(start, if queryOk then MaxId(s.table) else 0, []), stream := StartStream(s.stream, start))
    case PollQuery =>
      if s.poller.Started? && s.poller.batch == []
      then s.(poller := s.poller.(batch := Query(s.table, None, s.poller.lastId, DRAIN_PAGE))) else s
    case PollSend =>
      if s.poller.Started? && s.poller.batch != []
      then s.(poller := Started(s.poller.start, s.poller.batch[0].id, s.poller.batch[1..]),
              sent := s.sent + [s.poller.batch[0]]) else s
    case Subscribe(since, filter) =>
      if !s.stream.Closed? then s
      else if since.Some? then s.(stream := Subscribed(filter, since.value, |s.sent|, s.poller.NotStarted?))
      else
        var at := if s.poller.Started? then NextRow(s.poller, |s.sent|) else 0;
        s.(stream := Live(filter, 0, |s.sent|, s.poller.NotStarted?, false, 0, [], at, at, at, at))
    case Replay =>
      if s.stream.Subscribed? then s.(stream := ReplayStream(s.table, s.poller, s.stream)) else s
    case ReceiveOne =>
      if s.stream.Live? && s.poller.Started? && s.stream.pos < |s.sent|
      then s.(stream := ReceiveStream(s.poller, s.sent, s.stream)) else s
  }

  function Run(s: State, actions: seq<Action>): State {
    if actions == [] then s else Step(Run(s, actions[..|actions| - 1]), actions[|actions| - 1])
  }

  // ---------- The invariant ----------

  /** The broadcast log is a window of the table, the fetched batch follows it,
      and the cursor separates what was sent from what was not. */
  ghost predicate PollerOk(s: State) {
    if s.poller.NotStarted? then s.sent == []
    else
      var p := s.poller;
      var next := p.start + |s.sent|;
      && next + |p.batch| <= |s.table| && p.lastId <= MaxId(s.table)
      && s.sent == s.table[p.start..next]
      && p.batch == s.table[next..next + |p.batch|]
      && forall i :: 0 <= i < |s.table| ==> (s.table[i].id > p.lastId <==> i >= next)
  }

  /** The notes the stream owes its client so far. */
  ghost function Due(table: seq<Note>, st: Stream): seq<Note>
    requires st.Live? && st.lostFrom <= |table| && st.high <= |table|
  {
    Pick(table, st.filter, st.cursor, st.base, st.lostFrom) + Pick(table, st.filter, st.cursor, st.lostTo, st.high)
  }

  /** Of the rows below `high`, those still to be received will be recognised. */
  ghost predicate DedupOk(table: seq<Note>, st: Stream, from: nat)
    requires st.Live? && st.high <= |table|
  {
    && st.cursor <= st.lastSeen
    && (st.lastSeen > st.cursor ==> st.high > 0 && st.lastSeen <= table[st.high - 1].id)
    && forall i :: from <= i < st.high && Wanted(st.filter, st.cursor, table[i]) ==> table[i].id <= st.lastSeen
  }

  /** The record-keeping of a live stream, apart from what it has emitted. */
  ghost predicate CursorsOk(t: seq<Note>, p: Poller, sent: nat, st: Stream)
    requires st.Live?
  {
    && st.base <= st.lostFrom <= st.lostTo <= st.high <= |t|
    && st.pos <= sent
    && (st.resumed ==> st.base == 0)
    && (!st.early ==> p.Started? && st.lostFrom == st.lostTo)
    && (p.Started? ==> NextRow(p, st.pos) <= st.high && DedupOk(t, st, NextRow(p, st.pos)))
    && (p.NotStarted? ==> st.pos == 0 && st.lostFrom == st.lostTo && DedupOk(t, st, 0)
                          && (!st.resumed ==> st.high == 0 && st.cursor == 0 && st.emitted == []))
  }

  ghost predicate LiveOk(t: seq<Note>, p: Poller, sent: nat, st: Stream)
    requires st.Live?
  {
    CursorsOk(t, p, sent, st) && Explains(st.emitted, Due(t, st))
  }

  ghost predicate Inv(s: State) {
    && InIdOrder(s.table)
    && PollerOk(s)
    && (s.stream.Subscribed? ==>
          && s.stream.pos <= |s.sent|
          && (!s.stream.early ==> s.poller.Started?)
          && (s.poller.NotStarted? ==> s.stream.pos == 0))
    && (s.stream.Live? ==> LiveOk(s.table, s.poller, |s.sent|, s.stream))
  }

  lemma InsertKeepsPoller(s: State, note: Note)
    requires PollerOk(s) && note.id > MaxId(s.table)
    ensures PollerOk(s.(table := s.table + [note]))
  {
    if s.poller.Started? {
      var t', start, next := s.table + [note], s.poller.start, s.poller.start + |s.sent|;
      SliceOfPrefix(s.table, note, start, next);
      SliceOfPrefix(s.table, note, next, next + |s.poller.batch|);
      forall i | 0 <= i < |t'| ensures t'[i].id > s.poller.lastId <==> i >= next {
        if i < |s.table| { assert t'[i] == s.table[i]; } else { assert t'[i] == note; }
      }
    }
  }

  lemma SliceOfPrefix(t: seq<Note>, note: Note, lo: nat, hi: nat)
    requires lo <= hi <= |t|
    ensures (t + [note])[lo..hi] == t[lo..hi]
  {}

  lemma InsertKeepsLive(t: seq<Note>, p: Poller, sent: nat, st: Stream, note: Note)
    requires st.Live? && LiveOk(t, p, sent, st)
    ensures LiveOk(t + [note], p, sent, st)
  {
    PickStable(t, t + [note], st.filter, st.cursor, st.base, st.lostFrom);
    PickStable(t, t + [note], st.filter, st.cursor, st.lostTo, st.high);
  }

  lemma StartKeepsLive(t: seq<Note>, p: Poller, st: Stream)
    requires InIdOrder(t) && p.Started? && p.start <= |t|
    requires st.Live? && LiveOk(t, NotStarted, 0, st)
    ensures LiveOk(t, p, 0, StartStream(st, p.start))
  {
    var st' := StartStream(st, p.start);
    PickConcat(t, st.filter, st.cursor, st.base, st.lostFrom, st.high);
    if st.resumed && p.start > st.high > 0 { assert t[st.high - 1].id <= t[p.start - 1].id; }
    assert Due(t, st') == Due(t, st);
  }

  lemma QueryKeepsInv(s: State)
    requires Inv(s) && s.poller.Started? && s.poller.batch == []
    ensures Inv(Step(s, PollQuery))
  {
    var next := s.poller.start + |s.sent|;
    PickSuffix(s.table, s.poller.lastId, next, |s.table|);
    var rows := Query(s.table, None, s.poller.lastId, DRAIN_PAGE);
    assert rows == s.table[next..next + |rows|];
  }

  lemma SendKeepsPoller(s: State)
    requires InIdOrder(s.table) && PollerOk(s) && s.poller.Started? && s.poller.batch != []
    ensures PollerOk(Step(s, PollSend))
  {
    var p := s.poller;
    var next := p.start + |s.sent|;
    assert p.batch[0] == s.table[next];
    assert s.table[p.start..next] + [s.table[next]] == s.table[p.start..next + 1];
    assert p.batch[1..] == s.table[next + 1..next + |p.batch|];
  }

  lemma ReplayKeepsCursors(t: seq<Note>, p: Poller, sent: nat, st: Stream)
    requires InIdOrder(t) && st.Subscribed? && st.pos <= sent && (!st.early ==> p.Started?)
    requires p.Started? ==> p.start + sent <= |t|
    requires p.NotStarted? ==> st.pos == 0
    ensures CursorsOk(t, p, sent, ReplayStream(t, p, st))
  {
    var st' := ReplayStream(t, p, st);
    var seen := Cut(t, st.filter, st.cursor, REPLAY_LIMIT, |t|);
    LimitedAnswer(t, st.filter, st.cursor, REPLAY_LIMIT, |t|);
    ReplayDedup(t, st.filter, st.cursor, seen, st'.lastSeen);
    if 0 < seen < st'.high { assert t[seen - 1].id < t[st'.high - 1].id; }
  }

  lemma ReplayIsExplained(t: seq<Note>, p: Poller, sent: nat, st: Stream)
    requires st.Subscribed? && st.pos <= sent && (p.Started? ==> p.start + sent <= |t|)
    ensures var st' := ReplayStream(t, p, st); st'.high <= |t| && Explains(st'.emitted, Due(t, st'))
  {
    var st' := ReplayStream(t, p, st);
    var seen := Cut(t, st.filter, st.cursor, REPLAY_LIMIT, |t|);
    var rows := Query(t, st.filter, st.cursor, REPLAY_LIMIT);
    LimitedAnswer(t, st.filter, st.cursor, REPLAY_LIMIT, |t|);
    PickConcat(t, st.filter, st.cursor, 0, seen, st'.high);
    var skipped := Pick(t, st.filter, st.cursor, seen, st'.high);
    assert Due(t, st') == rows + skipped;
    ExplainsReplay(rows);
    if |rows| == REPLAY_LIMIT {
      ExplainsResync(NoteEvents(rows), rows, skipped);
    } else {
      assert skipped == [] && rows + [] == rows && NoteEvents(rows) + [] == NoteEvents(rows);
    }
  }

  /** The last replayed id recognises every replayed row. */
  lemma ReplayDedup(t: seq<Note>, filter: PoolFilter, cursor: int, seen: nat, last: int)
    requires InIdOrder(t) && seen <= |t|
    requires var rows := Pick(t, filter, cursor, 0, seen);
             last == if rows == [] then cursor else rows[|rows| - 1].id
    ensures cursor <= last && (last > cursor ==> seen > 0 && last <= t[seen - 1].id)
    ensures forall i :: 0 <= i < seen && Wanted(filter, cursor, t[i]) ==> t[i].id <= last
  {
    var rows := Pick(t, filter, cursor, 0, seen);
    PickMeaning(t, filter, cursor, 0, seen);
    if rows != [] { assert rows[|rows| - 1] in rows; }
    forall i | 0 <= i < seen && Wanted(filter, cursor, t[i])
      ensures t[i].id <= last
    {
      assert t[i] in t[0..seen];
      assert t[i] in rows;
    }
  }

  lemma LagKeepsCursors(t: seq<Note>, p: Poller, sent: seq<Note>, st: Stream)
    requires InIdOrder(t) && p.Started? && p.start + |sent| <= |t|
    requires st.Live? && CursorsOk(t, p, |sent|, st) && |sent| - st.pos > RING
    ensures CursorsOk(t, p, |sent|, ReceiveStream(p, sent, st))
  {
    var st' := ReceiveStream(p, sent, st);
    if st'.high > st.high > 0 { assert t[st.high - 1].id < t[st'.high - 1].id; }
  }

  lemma LagIsExplained(t: seq<Note>, p: Poller, sent: seq<Note>, st: Stream)
    requires p.Started? && p.start + |sent| <= |t|
    requires st.Live? && LiveOk(t, p, |sent|, st) && |sent| - st.pos > RING
    ensures Explains(ReceiveStream(p, sent, st).emitted, Due(t, ReceiveStream(p, sent, st)))
  {
    hide Pick, DedupOk, Explains;
    var st' := ReceiveStream(p, sent, st);
    var skipped := Pick(t, st.filter, st.cursor, st.high, st'.high);
    PickConcat(t, st.filter, st.cursor, st.lostTo, st.high, st'.high);
    ExplainsResync(st.emitted, Due(t, st), skipped);
    assert Due(t, st') == Due(t, st) + skipped;
  }

  /** A row the stream already answers for: recognised or filtered, never sent twice. */
  lemma OverlapKeepsLive(t: seq<Note>, p: Poller, sent: seq<Note>, st: Stream)
    requires InIdOrder(t) && p.Started? && p.start + |sent| <= |t| && sent == t[p.start..p.start + |sent|]
    requires st.Live? && LiveOk(t, p, |sent|, st) && 0 < |sent| - st.pos <= RING
    requires NextRow(p, st.pos) < st.high
    ensures LiveOk(t, p, |sent|, ReceiveStream(p, sent, st))
  {
    var st' := ReceiveStream(p, sent, st);
    var i := NextRow(p, st.pos);
    assert sent[st.pos] == t[i];
    if i < st.high - 1 { assert t[i].id < t[st.high - 1].id; }
    assert st'.emitted == st.emitted && st'.high == st.high;
    assert CursorsOk(t, p, |sent|, st');
    assert Due(t, st') == Due(t, st);
  }

  /** A new row: emitted exactly if it is wanted. */
  lemma NewRowKeepsLive(t: seq<Note>, p: Poller, sent: seq<Note>, st: Stream)
    requires InIdOrder(t) && p.Started? && p.start + |sent| <= |t| && sent == t[p.start..p.start + |sent|]
    requires st.Live? && LiveOk(t, p, |sent|, st) && 0 < |sent| - st.pos <= RING
    requires NextRow(p, st.pos) == st.high
    ensures LiveOk(t, p, |sent|, ReceiveStream(p, sent, st))
  {
    var st' := ReceiveStream(p, sent, st);
    var note := t[st.high];
    assert sent[st.pos] == note;
    if st.lastSeen > st.cursor { assert t[st.high - 1].id < note.id; }
    assert CursorsOk(t, p, |sent|, st');
    var arrived := if Wanted(st.filter, st.cursor, note) then [note] else [];
    assert Pick(t, st.filter, st.cursor, st.lostTo, st'.high)
        == Pick(t, st.filter, st.cursor, st.lostTo, st.high) + arrived;
    assert Due(t, st') == Due(t, st) + arrived;
    if arrived == [] {
      assert st'.emitted == st.emitted + [] == st.emitted && Due(t, st') == Due(t, st);
    } else {
      ExplainsNote(st.emitted, Due(t, st), note);
    }
  }

  lemma ReceiveKeepsLive(t: seq<Note>, p: Poller, sent: seq<Note>, st: Stream)
    requires InIdOrder(t) && p.Started? && p.start + |sent| <= |t| && sent == t[p.start..p.start + |sent|]
    requires st.Live? && LiveOk(t, p, |sent|, st) && st.pos < |sent|
    ensures LiveOk(t, p, |sent|, ReceiveStream(p, sent, st))
  {
    if |sent| - st.pos > RING {
      LagKeepsCursors(t, p, sent, st);
      LagIsExplained(t, p, sent, st);
    } else if NextRow(p, st.pos) < st.high {
      OverlapKeepsLive(t, p, sent, st);
    } else {
      NewRowKeepsLive(t, p, sent, st);
    }
  }

  lemma InsertKeepsInv(s: State, note: Note)
    requires Inv(s)
    ensures Inv(Step(s, InsertNote(note)))
  {
    if note.id > 0 && note.id > MaxId(s.table) {
      InsertKeepsPoller(s, note);
      if s.stream.Live? { InsertKeepsLive(s.table, s.poller, |s.sent|, s.stream, note); }
    }
  }

  lemma StartKeepsInv(s: State, queryOk: bool)
    requires Inv(s)
    ensures Inv(Step(s, StartPoller(queryOk)))
  {
    if s.poller.NotStarted? && s.stream.Live? {
      StartKeepsLive(s.table, Step(s, StartPoller(queryOk)).poller, s.stream);
    }
  }

  lemma ReplayKeepsInv(s: State)
    requires Inv(s)
    ensures Inv(Step(s, Replay))
  {
    if s.stream.Subscribed? {
      ReplayKeepsCursors(s.table, s.poller, |s.sent|, s.stream);
      ReplayIsExplained(s.table, s.poller, |s.sent|, s.stream);
      StreamStepKeepsInv(s, ReplayStream(s.table, s.poller, s.stream));
    }
  }

  lemma ReceiveKeepsInv(s: State)
    requires Inv(s)
    ensures Inv(Step(s, ReceiveOne))
  {
    if s.stream.Live? && s.poller.Started? && s.stream.pos < |s.sent| {
      var st' := ReceiveStream(s.poller, s.sent, s.stream);
      ReceiveKeepsLive(s.table, s.poller, s.sent, s.stream);
      assert Step(s, ReceiveOne) == s.(stream := st');
      StreamStepKeepsInv(s, st');
    }
  }

  lemma StreamStepKeepsInv(s: State, st': Stream)
    requires InIdOrder(s.table) && PollerOk(s)
    requires st'.Live? && LiveOk(s.table, s.poller, |s.sent|, st')
    ensures Inv(s.(stream := st'))
  {}

  lemma SendKeepsInv(s: State)
    requires Inv(s)
    ensures Inv(Step(s, PollSend))
  {
    if s.poller.Started? && s.poller.batch != [] { SendKeepsPoller(s); }
  }

  lemma SubscribeKeepsInv(s: State, since: Option<int>, filter: PoolFilter)
    requires Inv(s)
    ensures Inv(Step(s, Subscribe(since, filter)))
  {
    hide Explains, Due, Pick, InIdOrder;
    var st' := Step(s, Subscribe(since, filter)).stream;
    if s.stream.Closed? && st'.Live? { NothingDueYet(s.table, st'); }
  }

  /** A stream that has just begun owes nothing and has told nothing. */
  lemma NothingDueYet(t: seq<Note>, st: Stream)
    requires st.Live? && st.base == st.high == st.lostFrom == st.lostTo <= |t| && st.emitted == []
    ensures Explains(st.emitted, Due(t, st))
  {}

  lemma StepKeepsInv(s: State, a: Action)
    requires Inv(s)
    ensures Inv(Step(s, a))
  {
    match a
    case InsertNote(note) => InsertKeepsInv(s, note);
    case StartPoller(queryOk) => StartKeepsInv(s, queryOk);
    case PollQuery => if s.poller.Started? && s.poller.batch == [] { QueryKeepsInv(s); }
    case PollSend => SendKeepsInv(s);
    case Subscribe(since, filter) => SubscribeKeepsInv(s, since, filter);
    case Replay => ReplayKeepsInv(s);
    case ReceiveOne => ReceiveKeepsInv(s);
  }

  // ---------- Main results, over every run ----------

  lemma {:induction false} RunKeepsInv(actions: seq<Action>)
    ensures Inv(Run(Init(), actions))
  {
    if actions != [] {
      RunKeepsInv(actions[..|actions| - 1]);
      StepKeepsInv(Run(Init(), actions[..|actions| - 1]), actions[|actions| - 1]);
    }
  }

  /** All the notes a stream would ever owe, were it complete: for a resumed
      stream every stored matching note past its cursor. */
  ghost function Stored(s: State): seq<Note>
    requires s.stream.Live?
  {
    Pick(s.table, s.stream.filter, s.stream.cursor, 0, |s.table|)
  }

  /** Everything received that was broadcast, everything broadcast that is stored. */
  ghost predicate CaughtUp(s: State) {
    && s.stream.Live? && s.poller.Started?
    && s.poller.start + |s.sent| == |s.table|
    && s.stream.pos == |s.sent|
  }

  /** The windows of matching notes a resumed stream misses without a resync:
      inserted after its replay and before the fan-out read its starting id. */
  ghost function StartupWindow(s: State): seq<Note>
    requires s.stream.Live? && s.stream.lostTo <= |s.table|
  {
    Pick(s.table, s.stream.filter, s.stream.cursor, s.stream.lostFrom, s.stream.lostTo)
  }

  /** Lag and overflow included: in every run the emitted ids strictly increase
      and are stored, matching notes past the cursor, and a due note that is
      missing has a resync exactly where it would have stood. If the stream
      connected after the fan-out started, every matching stored note up to the
      newest emitted one is due. */
  lemma StreamNeverSkipsSilently(actions: seq<Action>)
    requires Run(Init(), actions).stream.Live?
    ensures var s := Run(Init(), actions);
            && s.stream.high <= |s.table| && s.stream.lostFrom <= |s.table|
            && IdsIncrease(s.stream.emitted)
            && (forall i :: 0 <= i < |s.stream.emitted| && s.stream.emitted[i].NoteEvent? ==>
                  && s.stream.emitted[i].note in s.table && s.stream.emitted[i].note.id > s.stream.cursor
                  && (s.stream.filter.None? || s.stream.emitted[i].note.pool in s.stream.filter.value))
            && (forall m :: m in Due(s.table, s.stream) ==>
                  NoteEvent(m) in s.stream.emitted || exists c :: ResyncAt(s.stream.emitted, m, c))
            && (s.stream.resumed && !s.stream.early ==>
                  Due(s.table, s.stream) == Pick(s.table, s.stream.filter, s.stream.cursor, 0, s.stream.high))
  {
    RunKeepsInv(actions);
    var s := Run(Init(), actions);
    var st, due := s.stream, Due(s.table, s.stream);
    DueInOrder(s.table, st);
    EmittedInOrder(st.emitted, due);
    EmittedAreDue(st.emitted, due);
    forall m | m in due
      ensures NoteEvent(m) in st.emitted || exists c :: ResyncAt(st.emitted, m, c)
    {
      if NoteEvent(m) !in st.emitted { var c := MissingMeansResync(st.emitted, due, m); }
    }
    PickConcat(s.table, st.filter, st.cursor, st.base, st.lostFrom, st.high);
  }

  lemma RunSnoc(s: State, actions: seq<Action>, a: Action)
    ensures Run(s, actions + [a]) == Step(Run(s, actions), a)
  {
    assert (actions + [a])[..|actions|] == actions;
  }

  lemma DueInOrder(t: seq<Note>, st: Stream)
    requires InIdOrder(t) && st.Live? && st.base <= st.lostFrom <= st.lostTo <= st.high <= |t|
    ensures InIdOrder(Due(t, st))
    ensures forall n :: n in Due(t, st) ==> n in t && Wanted(st.filter, st.cursor, n)
  {
    hide Pick, Wanted;
    var a := Pick(t, st.filter, st.cursor, st.base, st.lostFrom);
    var b := Pick(t, st.filter, st.cursor, st.lostTo, st.high);
    PickMembers(t, st.filter, st.cursor, st.base, st.lostFrom);
    PickMembers(t, st.filter, st.cursor, st.lostTo, st.high);
    forall x, y | x in a && y in b ensures x.id < y.id {
      assert x in t[st.base..st.lostFrom] && y in t[st.lostTo..st.high];
    }
    OrderedConcat(a, b);
  }

  lemma OrderedConcat(a: seq<Note>, b: seq<Note>)
    requires InIdOrder(a) && InIdOrder(b)
    requires forall x, y :: x in a && y in b ==> x.id < y.id
    ensures InIdOrder(a + b)
  {
    assert forall i :: 0 <= i < |a| ==> a[i] in a;
    assert forall i :: 0 <= i < |b| ==> b[i] in b;
  }

  /** No gaps, no duplicates: a resumed stream that connected after the fan-out
      started and has seen no resync has emitted, at every moment of every run,
      a prefix of the stored matching notes past its cursor, in order and each
      once; caught up, it has emitted all of them. */
  lemma ResyncFreeStreamIsExact(actions: seq<Action>)
    requires var st := Run(Init(), actions).stream;
             st.Live? && st.resumed && !st.early && Resync !in st.emitted
    ensures var s := Run(Init(), actions);
            && s.stream.emitted <= NoteEvents(Stored(s))
            && (CaughtUp(s) ==> s.stream.emitted == NoteEvents(Stored(s)))
  {
    RunKeepsInv(actions);
    var s := Run(Init(), actions);
    var st := s.stream;
    NoResyncIsExact(st.emitted, Due(s.table, st));
    PickConcat(s.table, st.filter, st.cursor, 0, st.lostFrom, st.high);
    PickConcat(s.table, st.filter, st.cursor, 0, st.high, |s.table|);
  }

  /** Where the fan-out starts, in every reachable state: past everything stored,
      so that only later notes are broadcast; if its query fails, before it. */
  lemma FanoutStartsAtNewest(actions: seq<Action>, queryOk: bool)
    requires Run(Init(), actions).poller.NotStarted?
    ensures var s := Run(Init(), actions);
            var p := Step(s, StartPoller(queryOk)).poller;
            && p.Started? && p.batch == [] && Step(s, StartPoller(queryOk)).sent == []
            && (queryOk ==> p.start == |s.table| && (forall n :: n in s.table ==> n.id <= p.lastId)
                            && (s.table == [] ==> p.lastId == 0) && (s.table != [] ==> exists n :: n in s.table && n.id == p.lastId))
            && (!queryOk ==> p.start == 0 && p.lastId == 0)
  {
    var s := Run(Init(), actions);
    RunKeepsInv(actions);
    if s.table != [] { LastIsMax(s.table); }
  }

  /** The first subscription of a run; there is only one stream. */
  ghost predicate Asked(actions: seq<Action>, i: nat, st: Stream) {
    && i < |actions| && actions[i].Subscribe? && (forall j :: 0 <= j < i ==> !actions[j].Subscribe?)
    && (st.Subscribed? ==> actions[i].since == Some(st.cursor) && st.filter == actions[i].filter)
    && (st.Live? ==> st.filter == actions[i].filter)
    && (st.Live? && st.resumed ==> actions[i].since == Some(st.cursor))
    && (st.Live? && !st.resumed ==> actions[i].since.None? && st.cursor == 0)
  }

  lemma StepAsksOnce(s: State, a: Action)
    ensures var st, st' := s.stream, Step(s, a).stream;
            && (st.Closed? && !a.Subscribe? ==> st'.Closed?)
            && (!st.Closed? ==> !st'.Closed? && st'.filter == st.filter && st'.cursor == st.cursor)
            && (st.Subscribed? && st'.Live? ==> st'.resumed)
            && (st.Live? ==> st'.Live? && st'.resumed == st.resumed)
            && (st.Closed? && a.Subscribe? ==> !st'.Closed? && st'.filter == a.filter)
            && (st.Closed? && a.Subscribe? && a.since.Some? ==> st'.Subscribed? && st'.cursor == a.since.value)
            && (st.Closed? && a.Subscribe? && a.since.None? ==> st'.Live? && !st'.resumed && st'.cursor == 0)
  {
    hide Pick, Cut, Query;
  }

  /** A stream serves what its client asked for: the pools of its request, from
      the cursor of its request, or live only without one. */
  lemma {:induction false} StreamIsAsAsked(actions: seq<Action>) returns (i: nat)
    ensures var st := Run(Init(), actions).stream;
            if st.Closed? then forall j :: 0 <= j < |actions| ==> !actions[j].Subscribe?
            else Asked(actions, i, st)
  {
    i := 0;
    if actions != [] {
      var init, a := actions[..|actions| - 1], actions[|actions| - 1];
      hide Step, Run;
      i := StreamIsAsAsked(init);
      StepAsksOnce(Run(Init(), init), a);
      RunSnoc(Init(), init, a);
      assert actions == init + [a];
      if Run(Init(), init).stream.Closed? { i := |init|; }
    }
  }

  // ---------- When there is a resync ----------

  /** The replay brings a resync if and only if at least 5,000 stored notes match
      past the cursor; its notes are the first of those, up to 5,000. */
  lemma ReplayResyncsIff(table: seq<Note>, poller: Poller, st: Stream)
    requires st.Subscribed?
    ensures var pending := Pick(table, st.filter, st.cursor, 0, |table|);
            var events := ReplayStream(table, poller, st).emitted;
            && (Resync in events <==> |pending| >= 5_000)
            && events == NoteEvents(Take(pending, 5_000)) + if |pending| >= 5_000 then [Resync] else []
  {
    var rows := Query(table, st.filter, st.cursor, REPLAY_LIMIT);
    var events := ReplayStream(table, poller, st).emitted;
    if |rows| == REPLAY_LIMIT { assert events[|rows|] == Resync; }
  }

  /** A received item adds a resync if and only if more than 1,024 broadcast
      notes are unread, and then the stream goes on with the latest 1,024; else
      it takes the next note, and tells of it if and only if it is new and from
      a pool asked for. */
  lemma ReceiveResyncsIff(poller: Poller, sent: seq<Note>, st: Stream)
    requires st.Live? && poller.Started? && st.pos < |sent|
    ensures var st' := ReceiveStream(poller, sent, st);
            if |sent| - st.pos > 1_024
            then st'.emitted == st.emitted + [Resync] && st'.pos == |sent| - 1_024 && st'.lastSeen == st.lastSeen
            else
              var note := sent[st.pos];
              && st'.pos == st.pos + 1
              && st'.lastSeen == (if note.id > st.lastSeen then note.id else st.lastSeen)
              && st'.emitted == st.emitted
                   + if note.id > st.lastSeen && (st.filter.None? || note.pool in st.filter.value) then [NoteEvent(note)] else []
  {}

  /** The stream keeps up: no replay meets 5,000 or more pending notes, no
      receive more than 1,024 unread ones. */
  ghost predicate KeepsUp(actions: seq<Action>) {
    actions == [] ||
    var a, s := actions[|actions| - 1], Run(Init(), actions[..|actions| - 1]);
    && KeepsUp(actions[..|actions| - 1])
    && (a.Replay? && s.stream.Subscribed? ==> |Pick(s.table, s.stream.filter, s.stream.cursor, 0, |s.table|)| < 5_000)
    && (a.ReceiveOne? && s.stream.Live? && s.poller.Started? && s.stream.pos < |s.sent| ==> |s.sent| - s.stream.pos <= 1_024)
  }

  /** What a stream has told so far; before it is live, nothing. */
  ghost function Told(s: State): seq<Event> {
    if s.stream.Live? then s.stream.emitted else []
  }

  lemma StepResyncsIff(s: State, a: Action)
    ensures Resync in Told(Step(s, a)) <==>
              || Resync in Told(s)
              || (a.Replay? && s.stream.Subscribed? && |Pick(s.table, s.stream.filter, s.stream.cursor, 0, |s.table|)| >= 5_000)
              || (a.ReceiveOne? && s.stream.Live? && s.poller.Started? && s.stream.pos < |s.sent| && |s.sent| - s.stream.pos > 1_024)
  {
    hide Pick, Cut, Query;
    if a.Replay? && s.stream.Subscribed? {
      ReplayResyncsIff(s.table, s.poller, s.stream);
    } else if a.ReceiveOne? && s.stream.Live? && s.poller.Started? && s.stream.pos < |s.sent| {
      ReceiveResyncsIff(s.poller, s.sent, s.stream);
    }
  }

  /** A client sees a resync in a run if and only if its stream did not keep up. */
  lemma {:induction false} ResyncFreeIffKeepsUp(actions: seq<Action>)
    ensures Resync !in Told(Run(Init(), actions)) <==> KeepsUp(actions)
  {
    hide Step, Told, Pick;
    if actions != [] {
      ResyncFreeIffKeepsUp(actions[..|actions| - 1]);
      StepResyncsIff(Run(Init(), actions[..|actions| - 1]), actions[|actions| - 1]);
    } else {
      NothingTold();
    }
  }

  lemma NothingTold()
    ensures Told(Run(Init(), [])) == []
  {}

  /** So exactness follows from conditions that show beforehand: a resumed stream that
      connected after the fan-out started and keeps up gets the matching notes
      past its cursor, in order, each once; all of them once caught up. */
  lemma KeepingUpIsExact(actions: seq<Action>)
    requires var st := Run(Init(), actions).stream; st.Live? && st.resumed && !st.early
    requires KeepsUp(actions)
    ensures var s := Run(Init(), actions);
            && s.stream.emitted <= NoteEvents(Stored(s))
            && (CaughtUp(s) ==> s.stream.emitted == NoteEvents(Stored(s)))
  {
    ResyncFreeIffKeepsUp(actions);
    ResyncFreeStreamIsExact(actions);
  }

  /** What connecting before the fan-out has read its starting id can cost: a
      caught-up, resync-free resumed stream is complete if and only if no
      matching note fell into the startup window. */
  lemma EarlyStreamIsExactIffWindowEmpty(actions: seq<Action>)
    requires var s := Run(Init(), actions);
             s.stream.Live? && s.stream.resumed && Resync !in s.stream.emitted && CaughtUp(s)
    ensures var s := Run(Init(), actions);
            && s.stream.lostTo <= |s.table|
            && (s.stream.emitted == NoteEvents(Stored(s)) <==> StartupWindow(s) == [])
            && (!s.stream.early ==> StartupWindow(s) == [])
  {
    RunKeepsInv(actions);
    var s := Run(Init(), actions);
    var t, st := s.table, s.stream;
    NoResyncIsExact(st.emitted, Due(t, st));
    PickConcat(t, st.filter, st.cursor, 0, st.lostFrom, |t|);
    PickConcat(t, st.filter, st.cursor, st.lostFrom, st.lostTo, |t|);
    assert st.base == 0 && st.high == |t|;
    ExactIffNothingBetween(Pick(t, st.filter, st.cursor, 0, st.lostFrom), StartupWindow(s),
                           Pick(t, st.filter, st.cursor, st.lostTo, |t|));
  }

  lemma ExactIffNothingBetween(a: seq<Note>, w: seq<Note>, b: seq<Note>)
    ensures NoteEvents(a + b) == NoteEvents(a + (w + b)) <==> w == []
  {
    assert |NoteEvents(a + b)| == |a| + |b| && |NoteEvents(a + (w + b))| == |a| + |w| + |b|;
    if w == [] { assert a + (w + b) == a + b; }
  }

  /** And it does happen: a stream resumes at 0, a note is stored, and only then
      the fan-out reads its starting id. Caught up and told nothing, the client
      misses the note. */
  lemma StartupWindowLosesNote(pool: string)
    ensures var s := Run(Init(), [Subscribe(Some(0), None)] + [Replay] + [InsertNote(Note(1, pool))] + [StartPoller(true)]);
            && CaughtUp(s) && s.stream.resumed && s.stream.emitted == [] && Stored(s) == [Note(1, pool)]
  {
    var note := Note(1, pool);
    var a, b := [Subscribe(Some(0), None)], [Subscribe(Some(0), None)] + [Replay];
    assert [] + a == a;
    RunSnoc(Init(), [], Subscribe(Some(0), None));
    RunSnoc(Init(), a, Replay);
    RunSnoc(Init(), b, InsertNote(note));
    RunSnoc(Init(), b + [InsertNote(note)], StartPoller(true));
    assert Query([], None, 0, REPLAY_LIMIT) == [] && NoteEvents([]) + [] == [];
    assert [] + [note] == [note] && Pick([note], None, 0, 0, 0) == [];
  }
}

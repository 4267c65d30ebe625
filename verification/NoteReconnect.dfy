/** A client that reconnects, again and again, with the id of the last note it got
    (crates/attesta-api/src/routes/notes.rs; the `Last-Event-ID` header, section
    9.2.4 of the WHATWG HTML Standard). */
module NoteReconnect {
  import opened NoteTable
  import opened StreamEvents
  import opened NoteRelay

  /** The relay's actions up to the end of one connection. */
  type Session = seq<Action>

  function Table(session: Session): seq<Note> {
    Run(Init(), session).table
  }

  function Emitted(session: Session): seq<Event>
    requires Run(Init(), session).stream.Live?
  {
    Run(Init(), session).stream.emitted
  }

  /** A connection resumed at `cursor`, made after the fan-out had started, on
      which no resync was seen. */
  ghost predicate ResyncFree(session: Session, filter: PoolFilter, cursor: int) {
    var st := Run(Init(), session).stream;
    && st.Live? && st.resumed && !st.early && Resync !in st.emitted
    && st.filter == filter && st.cursor == cursor
  }

  /** The id the client will present next: that of the last note it got. */
  function NextCursor(cursor: int, emitted: seq<Event>): int {
    if emitted != [] && emitted[|emitted| - 1].NoteEvent? then emitted[|emitted| - 1].note.id else cursor
  }

  /** One connection after the other, each resumed where the one before ended,
      while the table grows. */
  ghost predicate Chain(sessions: seq<Session>, filter: PoolFilter, cursor: int) {
    sessions == [] ||
    (&& ResyncFree(sessions[0], filter, cursor)
     && (|sessions| > 1 ==> Table(sessions[0]) <= Table(sessions[1]))
     && Chain(sessions[1..], filter, NextCursor(cursor, Emitted(sessions[0]))))
  }

  /** Everything the client got, in the order it got it. */
  function AllEmitted(sessions: seq<Session>): seq<Event> {
    if sessions == [] then []
    else (if Run(Init(), sessions[0]).stream.Live? then Emitted(sessions[0]) else []) + AllEmitted(sessions[1..])
  }

  lemma NoteEventsAppend(a: seq<Note>, b: seq<Note>)
    ensures NoteEvents(a + b) == NoteEvents(a) + NoteEvents(b)
  {}

  /** A first part of what is due past a cursor, and what is due past its end. */
  lemma PrefixSplits(table: seq<Note>, filter: PoolFilter, cursor: int, rows: seq<Note>)
    requires InIdOrder(table) && rows <= Pick(table, filter, cursor, 0, |table|)
    ensures Pick(table, filter, cursor, 0, |table|)
         == rows + Pick(table, filter, NextCursor(cursor, NoteEvents(rows)), 0, |table|)
  {
    if rows != [] {
      assert Query(table, filter, cursor, |rows|) == rows;
      NextPage(table, filter, cursor, |rows|);
    }
  }

  lemma PrefixGrows(t: seq<Note>, t': seq<Note>, filter: PoolFilter, cursor: int)
    requires t <= t'
    ensures Pick(t, filter, cursor, 0, |t|) <= Pick(t', filter, cursor, 0, |t'|)
  {
    PickStable(t, t', filter, cursor, 0, |t|);
    PickConcat(t', filter, cursor, 0, |t|, |t'|);
  }

  /** One connection against any later table. */
  lemma SessionIsPrefix(session: Session, filter: PoolFilter, cursor: int, t: seq<Note>) returns (rows: seq<Note>)
    requires ResyncFree(session, filter, cursor) && Table(session) <= t && InIdOrder(t)
    ensures Emitted(session) == NoteEvents(rows)
    ensures Pick(t, filter, cursor, 0, |t|) == rows + Pick(t, filter, NextCursor(cursor, Emitted(session)), 0, |t|)
    ensures CaughtUp(Run(Init(), session)) && Table(session) == t ==> Pick(t, filter, cursor, 0, |t|) == rows
  {
    var s := Run(Init(), session);
    ResyncFreeStreamIsExact(session);
    rows := Stored(s)[..|s.stream.emitted|];
    assert NoteEvents(rows) == s.stream.emitted;
    PrefixGrows(s.table, t, filter, cursor);
    PrefixSplits(t, filter, cursor, rows);
  }

  lemma {:induction false} TablesGrow(sessions: seq<Session>, filter: PoolFilter, cursor: int)
    requires Chain(sessions, filter, cursor) && sessions != []
    ensures Table(sessions[0]) <= Table(sessions[|sessions| - 1])
  {
    if |sessions| > 1 {
      TablesGrow(sessions[1..], filter, NextCursor(cursor, Emitted(sessions[0])));
    }
  }

  /** What a chain has got and what is still due make up the matching notes. */
  lemma {:induction false} ChainSplits(sessions: seq<Session>, filter: PoolFilter, cursor: int) returns (rows: seq<Note>, next: int)
    requires Chain(sessions, filter, cursor) && sessions != []
    ensures var t := Table(sessions[|sessions| - 1]);
            && AllEmitted(sessions) == NoteEvents(rows)
            && Pick(t, filter, cursor, 0, |t|) == rows + Pick(t, filter, next, 0, |t|)
            && (CaughtUp(Run(Init(), sessions[|sessions| - 1])) ==> Pick(t, filter, cursor, 0, |t|) == rows)
  {
    hide Run, Pick, CaughtUp, NoteEvents, NextCursor;
    var t := Table(sessions[|sessions| - 1]);
    RunKeepsInv(sessions[|sessions| - 1]);
    TablesGrow(sessions, filter, cursor);
    next := NextCursor(cursor, Emitted(sessions[0]));
    rows := SessionIsPrefix(sessions[0], filter, cursor, t);
    if |sessions| > 1 {
      var more;
      more, next := ChainSplits(sessions[1..], filter, next);
      NoteEventsAppend(rows, more);
      assert rows + (more + Pick(t, filter, next, 0, |t|)) == (rows + more) + Pick(t, filter, next, 0, |t|);
      rows := rows + more;
    } else {
      assert AllEmitted(sessions[1..]) == [];
    }
  }

  /** Lossless resume: however often a client reconnects with the last id it got,
      as long as it sees no resync it has got, over all connections, a first
      part of the matching notes past its first cursor, in order, each once;
      and all of them when the last connection has caught up. */
  lemma ReconnectingIsLossless(sessions: seq<Session>, filter: PoolFilter, cursor: int)
    requires Chain(sessions, filter, cursor) && sessions != []
    ensures var t := Table(sessions[|sessions| - 1]);
            && AllEmitted(sessions) <= NoteEvents(Pick(t, filter, cursor, 0, |t|))
            && (CaughtUp(Run(Init(), sessions[|sessions| - 1])) ==>
                  AllEmitted(sessions) == NoteEvents(Pick(t, filter, cursor, 0, |t|)))
  {
    var t := Table(sessions[|sessions| - 1]);
    var rows, next := ChainSplits(sessions, filter, cursor);
    NoteEventsAppend(rows, Pick(t, filter, next, 0, |t|));
  }
}

/** The live half of one note stream (crates/attesta-api/src/routes/notes.rs). */
module NoteStream {
  import opened NoteTable
  import opened Wrappers
  import opened StreamEvents
  import opened NoteRelay

  /** What the stream's receiver yields next. */
  function Yielded(s: State): Received
    requires s.stream.Live? && s.stream.pos < |s.sent|
  {
    if |s.sent| - s.stream.pos > RING then Lagged else Message(s.sent[s.stream.pos])
  }

  /** The closure of the live stream. */
  class LiveStream {
    const filter: PoolFilter
    var lastSeen: int
    /** The events handed to the client so far. */
    var emitted: seq<Event>

    /** The object is where the relay says this stream is. */
    ghost predicate Serves(st: Stream)
      reads this
    {
      st.Live? && st.filter == filter && st.lastSeen == lastSeen && st.emitted == emitted
    }

    /** After the replay, or at once when there is nothing to resume from. */
    constructor (ghost st: Stream, filter: PoolFilter, lastSeen: int, emitted: seq<Event>)
      requires st.Live? && st.filter == filter && st.lastSeen == lastSeen && st.emitted == emitted
      ensures Serves(st)
    {
      this.filter := filter;
      this.lastSeen := lastSeen;
      this.emitted := emitted;
    }

    /** One received item, in any reachable state of the relay. The client's
        promise is kept: what it was sent accounts for every note due by now,
        ids increase, and a note is new, stored, and one it asked for. */
    method OnReceived(ghost s: State, msg: Received) returns (event: Option<Event>)
      requires Inv(s) && Serves(s.stream) && s.poller.Started? && s.stream.pos < |s.sent| && msg == Yielded(s)
      modifies this
      ensures emitted == old(emitted) + if event.Some? then [event.value] else []
      ensures var s' := Step(s, ReceiveOne);
              Inv(s') && Serves(s'.stream) && s'.stream.high <= |s.table| && s'.stream.lostFrom <= |s.table|
              && Explains(emitted, Due(s.table, s'.stream))
      ensures IdsIncrease(emitted) && lastSeen >= old(lastSeen)
      ensures event.Some? && event.value.NoteEvent? ==>
                && event.value.note in s.table && event.value.note.id > s.stream.cursor
                && (filter.None? || event.value.note.pool in filter.value)
    {
      hide Inv, Due, Explains, IdsIncrease, PollerOk, ReplayStream, StartStream, Pick, Query, Cut;
      StepKeepsInv(s, ReceiveOne);
      StreamKeepsPromise(Step(s, ReceiveOne));
      event := None;
      match msg {
        case Message(note) =>
          if note.id > lastSeen {
            lastSeen := note.id;
            if filter.None? || note.pool in filter.value { event := Some(NoteEvent(note)); }
          }
        case Lagged => event := Some(Resync);
      }
      if event.Some? { emitted := emitted + [event.value]; }
      assert Step(s, ReceiveOne).stream == ReceiveStream(s.poller, s.sent, s.stream);
      assert event.Some? ==> emitted[|emitted| - 1] == event.value;
    }
  }

  /** The invariant read as a promise to the client. */
  lemma StreamKeepsPromise(s: State)
    requires Inv(s) && s.stream.Live?
    ensures s.stream.high <= |s.table| && s.stream.lostFrom <= |s.table|
    ensures Explains(s.stream.emitted, Due(s.table, s.stream)) && IdsIncrease(s.stream.emitted)
    ensures forall i :: 0 <= i < |s.stream.emitted| && s.stream.emitted[i].NoteEvent? ==>
              && s.stream.emitted[i].note in s.table && s.stream.emitted[i].note.id > s.stream.cursor
              && (s.stream.filter.None? || s.stream.emitted[i].note.pool in s.stream.filter.value)
  {
    var st, due := s.stream, Due(s.table, s.stream);
    DueInOrder(s.table, st);
    EmittedInOrder(st.emitted, due);
    EmittedAreDue(st.emitted, due);
  }
}

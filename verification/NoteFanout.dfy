/** The fan-out's drain loop (crates/attesta-api/src/routes/notes.rs). */
module NoteFanout {
  import opened NoteTable
  import opened Wrappers
  import opened NoteRelay

  class Fanout {
    /** Cursor: the id of the last broadcast note. */
    var lastId: int
    /** Everything handed to the broadcast channel so far. */
    var sent: seq<Note>
    /** The relay this task is the fan-out of. */
    ghost var relay: State

    /** Task and relay agree, and the relay is in a state its runs can reach. */
    ghost predicate Valid()
      reads this
    {
      && Inv(relay) && relay.poller.Started?
      && relay.sent == sent && relay.poller.lastId == lastId
    }

    /** Of `rows`, every row ever inserted, the first `visible` are in the table. */
    ghost predicate Sees(rows: seq<Note>, visible: nat)
      reads this
    {
      visible <= |rows| && relay.table == rows[..visible]
    }

    /** What was sent is the rows from the fan-out's start on, in order, each once. */
    ghost predicate SentInOrder(rows: seq<Note>)
      reads this
      requires Valid()
    {
      Start() + |sent| <= |rows| && sent == rows[Start()..Start() + |sent|]
    }

    /** The row the fan-out started at. */
    ghost function Start(): nat
      reads this
      requires Valid()
    {
      relay.poller.start
    }

    constructor (ghost relay: State, lastId: int)
      requires Inv(relay) && relay.poller.Started? && relay.sent == [] && relay.poller.lastId == lastId
      ensures Valid() && this.relay == relay
    {
      this.lastId := lastId;
      sent := [];
      this.relay := relay;
    }

    /** Send a fetched page row by row, moving the cursor with each row. */
    method SendPage(rows: seq<Note>) returns (ghost actions: seq<Action>)
      requires Valid() && relay.poller.batch == rows
      modifies this
      ensures Valid() && relay.poller.batch == [] && Start() == old(Start())
      ensures sent == old(sent) + rows && relay.table == old(relay.table)
      ensures relay == Run(old(relay), actions)
    {
      hide Inv, Step;
      actions := [];
      for k := 0 to |rows|
        invariant Valid() && relay.poller.batch == rows[k..] && Start() == old(Start())
        invariant sent == old(sent) + rows[..k] && relay.table == old(relay.table)
        invariant relay == Run(old(relay), actions)
      {
        StepKeepsInv(relay, PollSend);
        SendStep(relay);
        RunSnoc(old(relay), actions, PollSend);
        lastId := rows[k].id;
        sent := sent + [rows[k]];
        relay := Step(relay, PollSend);
        actions := actions + [PollSend];
      }
    }

    /** Rows that become visible while the drain runs. */
    ghost method See(rows: seq<Note>, visible: nat, visible': nat) returns (actions: seq<Action>)
      requires Valid() && InIdOrder(rows) && visible <= visible' <= |rows| && Sees(rows, visible)
      modifies this`relay
      ensures Valid() && Sees(rows, visible') && relay.poller == old(relay.poller)
      ensures relay == Run(old(relay), actions)
    {
      hide Inv, Step;
      actions := [];
      for v := visible to visible'
        invariant Valid() && Sees(rows, v) && relay.poller == old(relay.poller)
        invariant relay == Run(old(relay), actions)
      {
        StepKeepsInv(relay, InsertNote(rows[v]));
        InsertStep(relay, rows, v);
        RunSnoc(old(relay), actions, InsertNote(rows[v]));
        relay := Step(relay, InsertNote(rows[v]));
        actions := actions + [InsertNote(rows[v])];
      }
    }

    /** One query and its sends. */
    method DrainPage(rows: seq<Note>, visible: nat) returns (fullPage: bool, ghost actions: seq<Action>)
      requires Valid() && relay.poller.batch == [] && Sees(rows, visible)
      modifies this
      ensures Valid() && relay.poller.batch == [] && Start() == old(Start()) && Sees(rows, visible)
      ensures relay == Run(old(relay), actions)
      ensures |old(sent)| <= |sent| && (fullPage ==> |old(sent)| < |sent|)
      ensures !fullPage ==> Start() + |sent| == visible
    {
      hide Inv, Step, Run;
      ghost var start := relay;
      var page := Query(rows[..visible], None, lastId, 1000);
      StepKeepsInv(relay, PollQuery);
      QueryStep(relay);
      RunNothing(start);
      RunSnoc(start, [], PollQuery);
      relay := Step(relay, PollQuery);
      ghost var sends := SendPage(page);
      RunOn(start, [] + [PollQuery], sends);
      actions := [] + [PollQuery] + sends;
      fullPage := |page| == 1000;
    }

    /** Broadcast the rows past the cursor, page by page, while any number of
        `rows`, every row ever inserted, become visible between two queries. At
        every end what was sent is exactly the rows from the fan-out's start up
        to some point, in order, each once; after a good drain, and it is good
        unless a query fails, up to the last row its last query could see; after
        a failing query the next drain resumes exactly there. The drain is a run of the relay's own steps. */
    method DrainNewNotes(rows: seq<Note>, visible: nat, mayFail: bool)
      returns (ok: bool, visible': nat, ghost actions: seq<Action>)
      requires Valid() && relay.poller.batch == []
      requires InIdOrder(rows) && Sees(rows, visible)
      modifies this
      ensures Valid() && relay.poller.batch == [] && Start() == old(Start())
      ensures visible <= visible' <= |rows| && Sees(rows, visible')
      ensures relay == Run(old(relay), actions)
      ensures SentInOrder(rows) && |old(sent)| <= |sent| && Start() + |sent| <= visible'
      ensures (!mayFail ==> ok) && (ok ==> Start() + |sent| == visible')
    {
      hide Inv, Step, Run, InIdOrder, Sees, SentInOrder;
      ghost var start := relay;
      visible', actions := visible, [];
      RunNothing(start);
      SentIsWindow(rows, visible);
      var fullPage := true;
      while fullPage
        invariant Valid() && relay.poller.batch == [] && Start() == start.poller.start
        invariant visible <= visible' <= |rows| && Sees(rows, visible')
        invariant relay == Run(start, actions)
        invariant SentInOrder(rows) && |old(sent)| <= |sent| && Start() + |sent| <= visible'
        invariant !fullPage ==> Start() + |sent| == visible'
        decreases fullPage, |rows| - Start() - |sent|
      {
        var queryFails: bool := *;
        if mayFail && queryFails { return false, visible', actions; }
        var inserted: int := *;
        ghost var was := visible';
        if 0 <= inserted <= |rows| - visible' { visible' := visible' + inserted; }
        ghost var more := See(rows, was, visible');
        RunOn(start, actions, more);
        actions := actions + more;
        fullPage, more := DrainPage(rows, visible');
        RunOn(start, actions, more);
        actions := actions + more;
        SentIsWindow(rows, visible');
      }
      ok := true;
    }

    lemma SentIsWindow(rows: seq<Note>, visible: nat)
      requires Valid() && Sees(rows, visible)
      ensures visible <= |rows| && Start() + |sent| <= visible && SentInOrder(rows)
    {}
  }

  lemma RunNothing(s: State)
    ensures Run(s, []) == s
  {}

  lemma {:induction false} RunOn(s: State, actions: seq<Action>, more: seq<Action>)
    ensures Run(s, actions + more) == Run(Run(s, actions), more)
  {
    hide Run, Step;
    if more == [] {
      assert actions + more == actions;
      RunNothing(Run(s, actions));
    } else {
      var init, a := more[..|more| - 1], more[|more| - 1];
      RunOn(s, actions, init);
      assert actions + more == (actions + init) + [a] && more == init + [a];
      RunSnoc(s, actions + init, a);
      RunSnoc(Run(s, actions), init, a);
    }
  }

  lemma SendStep(s: State)
    requires s.poller.Started? && s.poller.batch != []
    ensures Step(s, PollSend) ==
            s.(poller := Started(s.poller.start, s.poller.batch[0].id, s.poller.batch[1..]), sent := s.sent + [s.poller.batch[0]])
  {}

  lemma InsertStep(s: State, rows: seq<Note>, v: nat)
    requires InIdOrder(rows) && v < |rows| && s.table == rows[..v]
    ensures Step(s, InsertNote(rows[v])) == s.(table := rows[..v + 1])
  {
    assert rows[..v + 1] == rows[..v] + [rows[v]];
  }

  /** The drain's query is the relay's; a short answer has reached the end. */
  lemma QueryStep(s: State)
    requires Inv(s) && s.poller.Started? && s.poller.batch == []
    ensures var page := Query(s.table, None, s.poller.lastId, 1000);
            && Step(s, PollQuery) == s.(poller := s.poller.(batch := page))
            && (|page| < 1000 ==> s.poller.start + |s.sent| + |page| == |s.table|)
  {
    PickSuffix(s.table, s.poller.lastId, s.poller.start + |s.sent|, |s.table|);
  }
}

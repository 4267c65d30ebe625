/** Cursor pages and the clients that walk them
    (crates/attesta-api/src/routes/notes.rs, crates/attesta-api/src/routes/issuer.rs,
    crates/attesta-disclosure/src/main.rs). */
module NotePaging {
  import opened NoteTable
  import opened Wrappers

  const PAGE_SIZE := 500

  datatype NotesPage = NotesPage(notes: seq<Note>, nextCursor: Option<int>)

  /** GET /v1/notes. */
  function ListNotes(table: seq<Note>, since: Option<int>, filter: PoolFilter): NotesPage {
    var cursor := if since.Some? then since.value else 0;
    var notes := Query(table, filter, cursor, PAGE_SIZE);
    NotesPage(notes, if |notes| == PAGE_SIZE then Some(notes[|notes| - 1].id) else None)
  }

  /** The tool's loop. `rows` is every row ever inserted; between two page
      reads any number of them becomes visible. What it collects is exactly the
      matching notes, in id order and each once, of the table as its last page
      read saw it, and the loop ends although the table grows under it. */
  method CollectNotes(rows: seq<Note>, visibleAtStart: nat, pool: string) returns (notes: seq<Note>, visible: nat)
    requires InIdOrder(rows) && visibleAtStart <= |rows|
    ensures visibleAtStart <= visible <= |rows|
    ensures notes == Pick(rows, Some({pool}), 0, 0, visible)
    ensures InIdOrder(notes) && forall n :: n in notes <==> n in rows[..visible] && n.pool == pool
  {
    var filter := Some({pool});
    var since: Option<int> := None;
    ghost var cursor := 0;
    visible := visibleAtStart;
    notes := [];
    while true
      invariant visibleAtStart <= visible <= |rows|
      invariant cursor == if since.Some? then since.value else 0
      invariant OnTrack(rows, filter, notes, cursor, visible)
      decreases |Pick(rows, filter, cursor, 0, |rows|)|
    {
      var inserted: int := *;
      if 0 <= inserted <= |rows| - visible { visible := visible + inserted; }
      var page := ListNotes(rows[..visible], since, filter);
      if page.nextCursor.None? {
        LastPage(rows, filter, notes, cursor, visible);
        notes := notes + page.notes;
        PoolNotes(rows, pool, visible);
        return;
      }
      FullPage(rows, filter, notes, cursor, visible);
      notes := notes + page.notes;
      since := page.nextCursor;
      cursor := since.value;
    }
  }

  /** One page in plain words: the first matching notes past the cursor, in id
      order; a cursor comes with it if and only if there are at least 500. */
  lemma PageIsExact(table: seq<Note>, since: Option<int>, filter: PoolFilter)
    requires InIdOrder(table)
    ensures var page, cursor := ListNotes(table, since, filter), if since.Some? then since.value else 0;
            var matching := Pick(table, filter, cursor, 0, |table|);
            && page.notes <= matching && InIdOrder(page.notes)
            && (forall n :: n in matching <==> n in table && n.id > cursor && (filter.None? || n.pool in filter.value))
            && |page.notes| == (if |matching| < 500 then |matching| else 500)
            && (page.nextCursor.Some? <==> |matching| >= 500)
            && (page.nextCursor.Some? ==> page.nextCursor.value == page.notes[499].id)
  {
    PickMeaning(table, filter, if since.Some? then since.value else 0, 0, |table|);
    assert table[0..|table|] == table;
  }

  lemma PoolNotes(rows: seq<Note>, pool: string, visible: nat)
    requires InIdOrder(rows) && visible <= |rows|
    ensures var notes := Pick(rows, Some({pool}), 0, 0, visible);
            InIdOrder(notes) && forall n :: n in notes <==> n in rows[..visible] && n.pool == pool
  {
    PickMeaning(rows, Some({pool}), 0, 0, visible);
    assert rows[0..visible] == rows[..visible];
  }

  /** `Split` holds for the table as it is and however it may grow. */
  ghost predicate OnTrack(rows: seq<Note>, filter: PoolFilter, notes: seq<Note>, cursor: int, visible: nat) {
    forall v :: visible <= v <= |rows| ==> Split(rows, filter, notes, cursor, v)
  }

  lemma LastPage(rows: seq<Note>, filter: PoolFilter, notes: seq<Note>, cursor: int, visible: nat)
    requires visible <= |rows| && OnTrack(rows, filter, notes, cursor, visible)
    requires |Query(rows[..visible], filter, cursor, PAGE_SIZE)| < PAGE_SIZE
    ensures notes + Query(rows[..visible], filter, cursor, PAGE_SIZE) == Pick(rows, filter, 0, 0, visible)
  {
    PickStable(rows[..visible], rows, filter, cursor, 0, visible);
    assert Split(rows, filter, notes, cursor, visible);
  }

  lemma FullPage(rows: seq<Note>, filter: PoolFilter, notes: seq<Note>, cursor: int, visible: nat)
    requires InIdOrder(rows) && visible <= |rows| && OnTrack(rows, filter, notes, cursor, visible)
    requires |Query(rows[..visible], filter, cursor, PAGE_SIZE)| == PAGE_SIZE
    ensures var page := Query(rows[..visible], filter, cursor, PAGE_SIZE);
            var next := page[|page| - 1].id;
            && OnTrack(rows, filter, notes + page, next, visible)
            && |Pick(rows, filter, next, 0, |rows|)| < |Pick(rows, filter, cursor, 0, |rows|)|
  {
    var page := Query(rows[..visible], filter, cursor, PAGE_SIZE);
    var next := page[|page| - 1].id;
    forall v | visible <= v <= |rows| ensures Split(rows, filter, notes + page, next, v) {
      PageInGrowingTable(rows, filter, cursor, visible, v);
      assert Split(rows, filter, notes, cursor, v);
      assert notes + (page + Pick(rows, filter, next, 0, v)) == (notes + page) + Pick(rows, filter, next, 0, v);
    }
    PageInGrowingTable(rows, filter, cursor, visible, |rows|);
  }

  /** What is collected and what is still ahead make up the matching notes of the first `v` rows. */
  ghost predicate Split(rows: seq<Note>, filter: PoolFilter, notes: seq<Note>, cursor: int, v: nat)
    requires v <= |rows|
  {
    Pick(rows, filter, 0, 0, v) == notes + Pick(rows, filter, cursor, 0, v)
  }

  /** A full page read at `visible` rows is also a first part of what any later
      table holds past the same cursor. */
  lemma PageInGrowingTable(rows: seq<Note>, filter: PoolFilter, cursor: int, visible: nat, v: nat)
    requires InIdOrder(rows) && visible <= v <= |rows|
    requires |Query(rows[..visible], filter, cursor, PAGE_SIZE)| == PAGE_SIZE
    ensures var page := Query(rows[..visible], filter, cursor, PAGE_SIZE);
            Pick(rows, filter, cursor, 0, v) == page + Pick(rows, filter, page[|page| - 1].id, 0, v)
  {
    var t, t' := rows[..visible], rows[..v];
    var page := Query(t, filter, cursor, PAGE_SIZE);
    PickStable(t', rows, filter, cursor, 0, v);
    PickStable(t', rows, filter, page[|page| - 1].id, 0, v);
    PickStable(t, t', filter, cursor, 0, visible);
    PickConcat(t', filter, cursor, 0, visible, v);
    assert Query(t', filter, cursor, PAGE_SIZE) == page;
    NextPage(t', filter, cursor, PAGE_SIZE);
  }
}

module MailboxPaging {
  const DELIVERIES_PAGE_SIZE := 200

  /** The columns pickup looks at. */
  datatype Delivery = Delivery(seqNo: int, hint: string, claimed: bool)

  /** A snapshot of `credential_deliveries` in `seq` order. */
  ghost predicate InSeqOrder(t: seq<Delivery>) {
    forall i, j :: 0 <= i < j < |t| ==> t[i].seqNo < t[j].seqNo
  }

  predicate Due(d: Delivery, hint: string, cursor: int) {
    d.hint == hint && !d.claimed && d.seqNo > cursor
  }

  /** The due rows of a snapshot, at most `limit` of them, in order. */
  function Page(t: seq<Delivery>, hint: string, cursor: int, limit: nat): (page: seq<Delivery>)
    ensures |page| <= limit
  {
    if t == [] || limit == 0 then []
    else if Due(t[0], hint, cursor) then [t[0]] + Page(t[1..], hint, cursor, limit - 1)
    else Page(t[1..], hint, cursor, limit)
  }

  lemma {:induction false} PageInOrder(t: seq<Delivery>, hint: string, cursor: int, limit: nat)
    requires InSeqOrder(t)
    ensures InSeqOrder(Page(t, hint, cursor, limit))
    ensures forall d :: d in Page(t, hint, cursor, limit) ==>
              d in t && d.hint == hint && !d.claimed && d.seqNo > cursor
  {
    if t != [] && limit != 0 {
      var due := Due(t[0], hint, cursor);
      var rest := Page(t[1..], hint, cursor, if due then limit - 1 else limit);
      PageInOrder(t[1..], hint, cursor, if due then limit - 1 else limit);
      forall d | d in rest ensures t[0].seqNo < d.seqNo {
        assert d in t[1..];
        var i :| 0 <= i < |t[1..]| && t[1..][i] == d;
      }
    }
  }

  /** A row the page leaves out although it is due lies behind the end of a full page. */
  ghost predicate LeftForLater(page: seq<Delivery>, limit: nat, d: Delivery) {
    |page| == limit && forall e :: e in page ==> e.seqNo < d.seqNo
  }

  /** A page holds every due row, up to its end when it is full. */
  lemma {:induction false} PageComplete(t: seq<Delivery>, hint: string, cursor: int, limit: nat, d: Delivery)
    requires InSeqOrder(t) && d in t && d.hint == hint && !d.claimed && d.seqNo > cursor
    ensures d in Page(t, hint, cursor, limit) || LeftForLater(Page(t, hint, cursor, limit), limit, d)
  {
    if limit != 0 {
      var due := Due(t[0], hint, cursor);
      if d != t[0] {
        var i :| 0 <= i < |t| && t[i] == d;
        assert t[1..][i - 1] == d;
        PageComplete(t[1..], hint, cursor, if due then limit - 1 else limit, d);
      }
    }
  }

  /** A page as the service cuts it: at most 200 rows, and full before it leaves
      out a row of the mailbox that is unclaimed and past the cursor. */
  lemma DeliveriesPage(t: seq<Delivery>, hint: string, cursor: int)
    requires InSeqOrder(t)
    ensures var page := Page(t, hint, cursor, DELIVERIES_PAGE_SIZE);
            && |page| <= 200 && InSeqOrder(page)
            && forall d :: d in t && d.hint == hint && !d.claimed && d.seqNo > cursor && d !in page ==>
                 |page| == 200 && forall e :: e in page ==> e.seqNo < d.seqNo
  {
    var page := Page(t, hint, cursor, DELIVERIES_PAGE_SIZE);
    PageInOrder(t, hint, cursor, DELIVERIES_PAGE_SIZE);
    forall d | d in t && d.hint == hint && !d.claimed && d.seqNo > cursor && d !in page
      ensures |page| == 200 && forall e :: e in page ==> e.seqNo < d.seqNo
    {
      PageComplete(t, hint, cursor, DELIVERIES_PAGE_SIZE, d);
    }
  }

  /** Row `d` of the mailbox sits unclaimed in every snapshot of `snaps`. */
  ghost predicate StaysDue(snaps: seq<seq<Delivery>>, d: Delivery, hint: string) {
    d.hint == hint && !d.claimed && d.seqNo > 0 && forall k :: 0 <= k < |snaps| ==> d in snaps[k]
  }

  /** A recipient pages through its mailbox while rows are claimed, swept and
      delivered. `snaps` are the snapshots the page queries meet, arbitrary but
      for the sequence order; `ended` tells that a short page ended the walk
      before they ran out. No row is collected twice, nothing foreign or
      claimed is collected, and every row of the mailbox that stays unclaimed
      and unswept through the walk is collected. */
  method CollectDeliveries(snaps: seq<seq<Delivery>>, hint: string)
    returns (collected: seq<Delivery>, used: nat, ended: bool)
    requires forall k :: 0 <= k < |snaps| ==> InSeqOrder(snaps[k])
    ensures used <= |snaps| && (ended || used == |snaps|)
    ensures InSeqOrder(collected)
    ensures forall d :: d in collected ==> d.hint == hint && !d.claimed && d.seqNo > 0
    ensures ended ==> used > 0 && forall d :: StaysDue(snaps[..used], d, hint) ==> d in collected
  {
    var cursor := 0;
    collected, used, ended := [], 0, false;
    while used < |snaps| && !ended
      invariant used <= |snaps| && (ended ==> used > 0) && (used == 0 ==> cursor == 0)
      invariant cursor >= 0 && Walked(snaps[..used], hint, collected, cursor, ended)
      decreases |snaps| - used, !ended
    {
      var page := Page(snaps[used], hint, cursor, DELIVERIES_PAGE_SIZE);
      WalkOn(snaps[..used], snaps[used], hint, collected, cursor);
      assert snaps[..used + 1] == snaps[..used] + [snaps[used]];
      collected := collected + page;
      used := used + 1;
      if |page| == DELIVERIES_PAGE_SIZE { cursor := page[|page| - 1].seqNo; } else { ended := true; }
    }
  }

  /** The state of a walk that has read `snaps`: everything due up to the cursor
      (everything, once it ended) that stayed due has been collected. */
  ghost predicate Walked(snaps: seq<seq<Delivery>>, hint: string, collected: seq<Delivery>, cursor: int, ended: bool) {
    && InSeqOrder(collected)
    && (forall d :: d in collected ==> Due(d, hint, 0) && (ended || d.seqNo <= cursor))
    && (snaps != [] ==>
          forall d :: StaysDue(snaps, d, hint) && (ended || d.seqNo <= cursor) ==> d in collected)
  }

  /** Where a walk stands after a page. */
  function CursorAfter(page: seq<Delivery>, cursor: int): int {
    if |page| == DELIVERIES_PAGE_SIZE then page[|page| - 1].seqNo else cursor
  }

  lemma WalkStaysInOrder(next: seq<Delivery>, hint: string, collected: seq<Delivery>, cursor: int)
    requires cursor >= 0 && InSeqOrder(next) && InSeqOrder(collected)
    requires forall d :: d in collected ==> Due(d, hint, 0) && d.seqNo <= cursor
    ensures var page := Page(next, hint, cursor, DELIVERIES_PAGE_SIZE);
            var cursor' := CursorAfter(page, cursor);
            && cursor' >= cursor && InSeqOrder(collected + page)
            && forall d :: d in collected + page ==>
                 Due(d, hint, 0) && (|page| < DELIVERIES_PAGE_SIZE || d.seqNo <= cursor')
  {
    hide Page;
    var page := Page(next, hint, cursor, DELIVERIES_PAGE_SIZE);
    PageInOrder(next, hint, cursor, DELIVERIES_PAGE_SIZE);
    assert forall i :: 0 <= i < |page| ==> page[i] in page;
    assert forall i :: 0 <= i < |collected| ==> collected[i] in collected;
  }

  lemma WalkMissesNothing(snaps: seq<seq<Delivery>>, next: seq<Delivery>, hint: string, collected: seq<Delivery>,
                          cursor: int, d: Delivery)
    requires cursor >= 0 && InSeqOrder(next) && Walked(snaps, hint, collected, cursor, false)
    requires snaps == [] ==> cursor == 0
    requires StaysDue(snaps + [next], d, hint)
    ensures var page := Page(next, hint, cursor, DELIVERIES_PAGE_SIZE);
            |page| < DELIVERIES_PAGE_SIZE || d.seqNo <= CursorAfter(page, cursor) ==> d in collected + page
  {
    hide Page;
    var page := Page(next, hint, cursor, DELIVERIES_PAGE_SIZE);
    assert (snaps + [next])[|snaps|] == next;
    StaysDuePrefix(snaps, next, d, hint);
    if d.seqNo > cursor {
      PageComplete(next, hint, cursor, DELIVERIES_PAGE_SIZE, d);
      if |page| == DELIVERIES_PAGE_SIZE { assert page[|page| - 1] in page; }
    }
  }

  lemma WalkOn(snaps: seq<seq<Delivery>>, next: seq<Delivery>, hint: string, collected: seq<Delivery>, cursor: int)
    requires cursor >= 0 && InSeqOrder(next) && Walked(snaps, hint, collected, cursor, false)
    requires snaps == [] ==> cursor == 0
    ensures var page := Page(next, hint, cursor, DELIVERIES_PAGE_SIZE);
            && CursorAfter(page, cursor) >= 0
            && Walked(snaps + [next], hint, collected + page, CursorAfter(page, cursor), |page| < DELIVERIES_PAGE_SIZE)
  {
    hide Page, StaysDue, Due, InSeqOrder, CursorAfter;
    var page := Page(next, hint, cursor, DELIVERIES_PAGE_SIZE);
    WalkStaysInOrder(next, hint, collected, cursor);
    forall d | StaysDue(snaps + [next], d, hint)
      ensures |page| < DELIVERIES_PAGE_SIZE || d.seqNo <= CursorAfter(page, cursor) ==> d in collected + page
    {
      WalkMissesNothing(snaps, next, hint, collected, cursor, d);
    }
  }

  lemma StaysDuePrefix(snaps: seq<seq<Delivery>>, next: seq<Delivery>, d: Delivery, hint: string)
    requires StaysDue(snaps + [next], d, hint)
    ensures StaysDue(snaps, d, hint)
  {
    forall k | 0 <= k < |snaps| ensures d in snaps[k] {
      assert (snaps + [next])[k] == snaps[k];
    }
  }
}

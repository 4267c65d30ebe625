/** The `encrypted_notes` table and its one cursor query, shared by the note
    pages, the stream replay and the fan-out (crates/attesta-api/src/routes/notes.rs). */
module NoteTable {
  import opened Wrappers

  /** A stored note; the ciphertext columns play no part in delivery. */
  datatype Note = Note(id: int, pool: string)

  /** The optional pool filter of a request. */
  type PoolFilter = Option<set<string>>

  /** Rows in insertion order. Ids come from one sequence and one writer, so
      they are positive and increase; they need not be consecutive. */
  ghost predicate InIdOrder(table: seq<Note>) {
    && (forall i :: 0 <= i < |table| ==> table[i].id > 0)
    && (forall i, j :: 0 <= i < j < |table| ==> table[i].id < table[j].id)
  }

  predicate InPools(filter: PoolFilter, note: Note) {
    filter.None? || note.pool in filter.value
  }

  predicate Wanted(filter: PoolFilter, cursor: int, note: Note) {
    note.id > cursor && InPools(filter, note)
  }

  /** The wanted notes among rows `lo..hi`, in id order. */
  function Pick(table: seq<Note>, filter: PoolFilter, cursor: int, lo: nat, hi: nat): seq<Note>
    requires hi <= |table|
  {
    if lo >= hi then []
    else Pick(table, filter, cursor, lo, hi - 1)
         + if Wanted(filter, cursor, table[hi - 1]) then [table[hi - 1]] else []
  }

  function Take(s: seq<Note>, limit: nat): seq<Note> {
    if |s| <= limit then s else s[..limit]
  }

  /** `WHERE id > cursor AND (no filter OR pool in filter) ORDER BY id LIMIT limit`. */
  function Query(table: seq<Note>, filter: PoolFilter, cursor: int, limit: nat): seq<Note> {
    Take(Pick(table, filter, cursor, 0, |table|), limit)
  }

  lemma {:induction false} PickConcat(table: seq<Note>, filter: PoolFilter, cursor: int, lo: nat, mid: nat, hi: nat)
    requires lo <= mid <= hi <= |table|
    ensures Pick(table, filter, cursor, lo, hi) ==
            Pick(table, filter, cursor, lo, mid) + Pick(table, filter, cursor, mid, hi)
  {
    if mid < hi { PickConcat(table, filter, cursor, lo, mid, hi - 1); }
  }

  /** Inserts do not disturb what earlier rows contribute. */
  lemma {:induction false} PickStable(table: seq<Note>, table': seq<Note>, filter: PoolFilter, cursor: int, lo: nat, hi: nat)
    requires table <= table' && hi <= |table|
    ensures Pick(table', filter, cursor, lo, hi) == Pick(table, filter, cursor, lo, hi)
  {
    if lo < hi { PickStable(table, table', filter, cursor, lo, hi - 1); }
  }

  lemma {:induction false} PickIsWanted(table: seq<Note>, filter: PoolFilter, cursor: int, lo: nat, hi: nat)
    requires lo <= hi <= |table|
    ensures forall n :: n in Pick(table, filter, cursor, lo, hi) <==> n in table[lo..hi] && Wanted(filter, cursor, n)
  {
    hide Wanted;
    if lo < hi {
      PickIsWanted(table, filter, cursor, lo, hi - 1);
      var init, x := Pick(table, filter, cursor, lo, hi - 1), table[hi - 1];
      assert table[lo..hi] == table[lo..hi - 1] + [x];
      forall n ensures n in Pick(table, filter, cursor, lo, hi) <==> n in table[lo..hi] && Wanted(filter, cursor, n) {
        assert n in Pick(table, filter, cursor, lo, hi) <==> n in init || (n == x && Wanted(filter, cursor, x));
        assert n in table[lo..hi] <==> n in table[lo..hi - 1] || n == x;
      }
    }
  }

  lemma OrderSnoc(rows: seq<Note>, x: Note)
    requires InIdOrder(rows) && x.id > 0 && forall n :: n in rows ==> n.id < x.id
    ensures InIdOrder(rows + [x])
  {
    assert forall i :: 0 <= i < |rows| ==> rows[i] in rows;
  }

  lemma {:induction false} PickMembers(table: seq<Note>, filter: PoolFilter, cursor: int, lo: nat, hi: nat)
    requires InIdOrder(table) && lo <= hi <= |table|
    ensures InIdOrder(Pick(table, filter, cursor, lo, hi))
    ensures forall n :: n in Pick(table, filter, cursor, lo, hi) <==> n in table[lo..hi] && Wanted(filter, cursor, n)
  {
    hide Wanted;
    PickIsWanted(table, filter, cursor, lo, hi);
    if lo < hi {
      PickMembers(table, filter, cursor, lo, hi - 1);
      var init, x := Pick(table, filter, cursor, lo, hi - 1), table[hi - 1];
      forall n | n in init ensures n.id < x.id {
        assert n in table[lo..hi - 1];
      }
      hide InIdOrder;
      OrderSnoc(init, x);
    }
  }

  /** What `Pick` is: exactly the rows of the range past the cursor and in one
      of the pools asked for, if any are named; ids increasing. */
  lemma PickMeaning(table: seq<Note>, filter: PoolFilter, cursor: int, lo: nat, hi: nat)
    requires InIdOrder(table) && lo <= hi <= |table|
    ensures var s := Pick(table, filter, cursor, lo, hi);
            && InIdOrder(s)
            && (forall n :: n in s <==> n in table[lo..hi] && Wanted(filter, cursor, n))
            && (forall n :: n in s <==> n in table[lo..hi] && n.id > cursor && (filter.None? || n.pool in filter.value))
  {
    hide Pick, InIdOrder;
    PickMembers(table, filter, cursor, lo, hi);
  }

  /** Nothing is wanted in a range at or below the cursor. */
  lemma {:induction false} PickNothing(table: seq<Note>, filter: PoolFilter, cursor: int, lo: nat, hi: nat)
    requires hi <= |table|
    requires forall i :: lo <= i < hi ==> !Wanted(filter, cursor, table[i])
    ensures Pick(table, filter, cursor, lo, hi) == []
  {
    if lo < hi { PickNothing(table, filter, cursor, lo, hi - 1); }
  }

  /** Without a filter the rows past the cursor are a suffix of the table. */
  lemma {:induction false} PickSuffix(table: seq<Note>, cursor: int, lo: nat, hi: nat)
    requires lo <= hi <= |table|
    requires forall i :: 0 <= i < hi ==> (table[i].id > cursor <==> i >= lo)
    ensures Pick(table, None, cursor, 0, hi) == table[lo..hi]
  {
    if lo < hi {
      PickSuffix(table, cursor, lo, hi - 1);
      assert table[lo..hi] == table[lo..hi - 1] + [table[hi - 1]];
    } else {
      PickNothing(table, None, cursor, 0, hi);
    }
  }

  /** How many rows a limited query has looked at. */
  function Cut(table: seq<Note>, filter: PoolFilter, cursor: int, limit: nat, n: nat): (j: nat)
    requires n <= |table|
    ensures j <= n
  {
    if n == 0 then 0
    else if |Pick(table, filter, cursor, 0, n - 1)| >= limit then Cut(table, filter, cursor, limit, n - 1)
    else n
  }

  /** A limited answer is the complete answer over the rows up to the cut, and
      an answer below the limit has looked at everything. */
  lemma {:induction false} LimitedAnswer(table: seq<Note>, filter: PoolFilter, cursor: int, limit: nat, n: nat)
    requires n <= |table| && limit > 0
    ensures var j := Cut(table, filter, cursor, limit, n);
            && Take(Pick(table, filter, cursor, 0, n), limit) == Pick(table, filter, cursor, 0, j)
            && (|Pick(table, filter, cursor, 0, n)| < limit ==> j == n)
            && (j < n ==> |Pick(table, filter, cursor, 0, j)| == limit)
            && (j < n ==> j > 0 && Wanted(filter, cursor, table[j - 1]))
  {
    hide Wanted;
    if n != 0 && |Pick(table, filter, cursor, 0, n - 1)| >= limit {
      LimitedAnswer(table, filter, cursor, limit, n - 1);
      if Cut(table, filter, cursor, limit, n - 1) == n - 1 { CutAtEnd(table, filter, cursor, limit, n - 1); }
      TakeOfLonger(Pick(table, filter, cursor, 0, n - 1), Pick(table, filter, cursor, 0, n), limit);
    }
  }

  lemma TakeOfLonger(a: seq<Note>, b: seq<Note>, limit: nat)
    requires a <= b && |a| >= limit
    ensures Take(b, limit) == Take(a, limit)
  {}

  /** A cut at the end of rows that fill the limit is at the row that filled it. */
  lemma CutAtEnd(table: seq<Note>, filter: PoolFilter, cursor: int, limit: nat, n: nat)
    requires n <= |table| && limit > 0
    requires |Pick(table, filter, cursor, 0, n)| >= limit && Cut(table, filter, cursor, limit, n) == n
    ensures |Pick(table, filter, cursor, 0, n)| == limit && n > 0 && Wanted(filter, cursor, table[n - 1])
  {}

  /** The cursor contract: asking again from the last id of an answer yields
      exactly what the answer left out. */
  lemma NextPage(table: seq<Note>, filter: PoolFilter, cursor: int, limit: nat)
    requires InIdOrder(table) && limit > 0 && Query(table, filter, cursor, limit) != []
    ensures var all, rows := Pick(table, filter, cursor, 0, |table|), Query(table, filter, cursor, limit);
            && rows <= all
            && rows[|rows| - 1].id > cursor
            && Pick(table, filter, rows[|rows| - 1].id, 0, |table|) == all[|rows|..]
  {
    hide Pick, Cut, Wanted;
    var n, j := |table|, Cut(table, filter, cursor, limit, |table|);
    var rows := Query(table, filter, cursor, limit);
    var last := rows[|rows| - 1];
    LimitedAnswer(table, filter, cursor, limit, n);
    PickConcat(table, filter, cursor, 0, j, n);
    PickConcat(table, filter, last.id, 0, j, n);
    NothingLeftBelow(table, filter, cursor, j);
    PickNothing(table, filter, last.id, 0, j);
    PickCursor(table, filter, cursor, last.id, j, n);
  }

  /** Up to where an answer has looked, its last id has nothing left to want. */
  lemma NothingLeftBelow(table: seq<Note>, filter: PoolFilter, cursor: int, j: nat)
    requires InIdOrder(table) && j <= |table| && Pick(table, filter, cursor, 0, j) != []
    ensures var rows := Pick(table, filter, cursor, 0, j);
            && rows[|rows| - 1].id > cursor
            && (forall i :: 0 <= i < j ==> !Wanted(filter, rows[|rows| - 1].id, table[i]))
            && (forall i :: j <= i < |table| ==> table[i].id > rows[|rows| - 1].id)
  {
    hide Pick, InPools;
    var rows := Pick(table, filter, cursor, 0, j);
    var last := rows[|rows| - 1];
    PickMembers(table, filter, cursor, 0, j);
    LastIsMax(rows);
    var at :| 0 <= at < j && table[at] == last;
    forall i | 0 <= i < j ensures !Wanted(filter, last.id, table[i]) {
      if Wanted(filter, cursor, table[i]) { assert table[i] in table[0..j]; }
    }
  }

  lemma LastIsMax(rows: seq<Note>)
    requires InIdOrder(rows) && rows != []
    ensures rows[|rows| - 1] in rows && forall n :: n in rows ==> n.id <= rows[|rows| - 1].id
  {}

  /** Over rows past two cursors, the cursor makes no difference. */
  lemma {:induction false} PickCursor(table: seq<Note>, filter: PoolFilter, c: int, c': int, lo: nat, hi: nat)
    requires hi <= |table|
    requires forall i :: lo <= i < hi ==> table[i].id > c && table[i].id > c'
    ensures Pick(table, filter, c, lo, hi) == Pick(table, filter, c', lo, hi)
  {
    if lo < hi { PickCursor(table, filter, c, c', lo, hi - 1); }
  }
}

/**
 The change tap: polls a table for rows above a rowid cursor and hands them to a queue.
 */
module SqliteTap {
  import opened SortedSets

  const LIMIT := 1000

  // ------------------------------------------------------------ one poll

  function Above(table: set<i64>, cursor: i64): set<i64> {
    set r | r in table && r > cursor
  }

  function FirstOf(s: seq<i64>, n: nat): seq<i64> {
    if |s| <= n then s else s[..n]
  }

  /** The page query: rowids above the cursor, ascending, at most `LIMIT`. */
  function Page(table: set<i64>, cursor: i64): seq<i64> {
    FirstOf(Sorted(Above(table, cursor)), LIMIT)
  }

  /** Zero, or the greatest rowid present. */
  function StartCursor(table: set<i64>, fromZero: bool): i64 {
    if fromZero || table == {} then 0 else Sorted(table)[|table| - 1]
  }

  /** The rows handed over before the first whose publish fails. */
  function HandedOver(rows: seq<i64>, failing: set<i64>): (h: seq<i64>)
    ensures h <= rows
    ensures forall r :: r in h ==> r !in failing
    ensures |h| < |rows| ==> rows[|h|] in failing
  {
    if rows == [] || rows[0] in failing then [] else [rows[0]] + HandedOver(rows[1..], failing)
  }

  function LastOr(rows: seq<i64>, cursor: i64): i64 {
    if rows == [] then cursor else rows[|rows| - 1]
  }

  /** A row: its rowid and the time it was inserted, for a rowid can be used again. */
  datatype Row = Row(id: i64, born: nat)

  function RowsOf(ids: seq<i64>, table: map<i64, nat>): seq<Row>
    requires forall r :: r in ids ==> r in table
  {
    seq(|ids|, i requires 0 <= i < |ids| => assert ids[i] in ids; Row(ids[i], table[ids[i]]))
  }

  datatype Tap = Tap(cursor: i64, published: seq<Row>, alive: bool)

  /** What a poll hands over: an initial stretch of the rowids above the cursor. */
  lemma HandedIsPrefix(table: set<i64>, cursor: i64, failing: set<i64>)
    ensures HandedOver(Page(table, cursor), failing) <= Sorted(Above(table, cursor))
    ensures forall r :: r in HandedOver(Page(table, cursor), failing) ==> r in table && r > cursor
  {
    var all := Sorted(Above(table, cursor));
    var h := HandedOver(Page(table, cursor), failing);
    assert h <= Page(table, cursor) <= all;
    PrefixMembers(Above(table, cursor), h);
  }

  function Poll(t: Tap, table: map<i64, nat>, ok: bool, failing: set<i64>): Tap {
    if !t.alive || !ok then t
    else
      var ids := Page(table.Keys, t.cursor);
      var h := HandedOver(ids, failing);
      HandedIsPrefix(table.Keys, t.cursor, failing);
      Tap(LastOr(h, t.cursor), t.published + RowsOf(h, table), |h| == |ids|)
  }

  /** The tap process: its cursor, the queue it publishes to, and whether it still runs. */
  class Poller {
    var cursor: i64
    var published: seq<Row>
    var alive: bool

    ghost function State(): Tap
      reads this
    {
      Tap(cursor, published, alive)
    }

    constructor (table: map<i64, nat>, fromZero: bool)
      ensures State() == Tap(StartCursor(table.Keys, fromZero), [], true)
    {
      cursor, published, alive := StartCursor(table.Keys, fromZero), [], true;
    }

    /** One turn of the polling loop. A failed select changes nothing; a failed publish ends
        the process with the cursor on the last row that was handed over. */
    method PollOnce(table: map<i64, nat>, ok: bool, failing: set<i64>)
      modifies this
      ensures State() == Poll(old(State()), table, ok, failing)
    {
      if !alive || !ok {
        return;
      }
      var ids := Page(table.Keys, cursor);
      PageInTable(table.Keys, cursor);
      HandRows(ids, table, failing);
    }

    /** Publish row by row, moving the cursor behind each. */
    method HandRows(ids: seq<i64>, table: map<i64, nat>, failing: set<i64>)
      requires alive && forall r :: r in ids ==> r in table
      modifies this
      ensures forall r :: r in HandedOver(ids, failing) ==> r in table
      ensures published == old(published) + RowsOf(HandedOver(ids, failing), table)
      ensures cursor == LastOr(HandedOver(ids, failing), old(cursor))
      ensures alive == (|HandedOver(ids, failing)| == |ids|)
    {
      ghost var h := HandedOver(ids, failing);
      assert forall i :: 0 <= i < |h| ==> h[i] == ids[i] && ids[i] in ids;
      for i := 0 to |ids|
        invariant alive && i <= |h|
        invariant published == old(published) + RowsOf(ids[..i], table)
        invariant cursor == LastOr(ids[..i], old(cursor))
      {
        if ids[i] in failing {
          assert i == |h| && ids[..i] == h;
          alive := false;
          return;
        }
        assert ids[..i + 1] == ids[..i] + [ids[i]];
        RowsAppend(ids[..i], ids[i], table);
        published := published + [Row(ids[i], table[ids[i]])];
        cursor := ids[i];
      }
      assert ids[..|ids|] == ids == h;
    }
  }

  lemma PageInTable(table: set<i64>, cursor: i64)
    ensures forall r :: r in Page(table, cursor) ==> r in table
  {
    var all := Sorted(Above(table, cursor));
    assert forall r :: r in Page(table, cursor) ==> r in all;
  }

  lemma RowsAppend(ids: seq<i64>, r: i64, table: map<i64, nat>)
    requires r in table && forall x :: x in ids ==> x in table
    ensures RowsOf(ids + [r], table) == RowsOf(ids, table) + [Row(r, table[r])]
  {
  }

  // ------------------------------------------------------------ runs

  /** The table, each rowid with the number of events before its row was inserted, and the tap. */
  datatype World = World(table: map<i64, nat>, tap: Tap)

  datatype Event = Insert(row: i64) | Delete(row: i64) | Polled(ok: bool, failing: set<i64>)

  function Initial(ids: set<i64>): map<i64, nat> {
    map r | r in ids :: 0
  }

  function Started(ids: set<i64>, fromZero: bool): World {
    World(Initial(ids), Tap(StartCursor(ids, fromZero), [], true))
  }

  /** The event with `now` events before it. */
  function Step(w: World, e: Event, now: nat): World {
    match e
    case Insert(r) => if r in w.table then w else w.(table := w.table[r := now])
    case Delete(r) => w.(table := w.table - {r})
    case Polled(ok, failing) => w.(tap := Poll(w.tap, w.table, ok, failing))
  }

  function Run(w: World, events: seq<Event>): World {
    if events == [] then w else Step(Run(w, events[..|events| - 1]), events[|events| - 1], |events| - 1)
  }

  /** Where the cursor stood after the first `time` events. */
  function CursorAt(w: World, events: seq<Event>, time: nat): i64
    requires time <= |events|
  {
    Run(w, events[..time]).tap.cursor
  }

  // ------------------------------------------------------------ exactly once, in order

  /** The queue's rowids ascend from above `start` to the cursor. */
  ghost predicate Ordered(published: seq<Row>, start: i64, cursor: i64) {
    && (forall i, j :: 0 <= i < j < |published| ==> published[i].id < published[j].id)
    && cursor == (if published == [] then start else published[|published| - 1].id)
    && (forall row :: row in published ==> start < row.id <= cursor)
    && start <= cursor
  }

  /** The row was inserted ahead of the cursor, and the cursor has passed it since. */
  ghost predicate Passed(w: World, events: seq<Event>, row: Row) {
    row.born <= |events| && CursorAt(w, events, row.born) < row.id <= Run(w, events).tap.cursor
  }

  lemma PrefixOfSorted(s: set<i64>, h: seq<i64>, x: i64)
    requires h <= Sorted(s) && h != [] && x in s && x <= h[|h| - 1]
    ensures x in h
  {
    var r := Sorted(s);
    assert x in r;
    var i :| 0 <= i < |r| && r[i] == x;
    assert i < |h|;
    assert h[i] == x;
  }

  /** What one poll does: it hands over rows of the table, ascending, all of them up to the new cursor. */
  ghost predicate Hands(table: map<i64, nat>, cursor: i64, cursor': i64, h: seq<i64>) {
    && Ascending(h) && cursor' == LastOr(h, cursor) && cursor <= cursor'
    && (forall r :: r in h ==> r in table && cursor < r <= cursor')
    && (forall r :: r in table && cursor < r <= cursor' ==> r in h)
  }

  lemma PollHands(t: Tap, table: map<i64, nat>, ok: bool, failing: set<i64>) returns (h: seq<i64>)
    ensures Hands(table, t.cursor, Poll(t, table, ok, failing).cursor, h)
    ensures Poll(t, table, ok, failing).published == t.published + RowsOf(h, table)
  {
    h := [];
    if t.alive && ok {
      h := HandedOver(Page(table.Keys, t.cursor), failing);
      HandedIsPrefix(table.Keys, t.cursor, failing);
      PrefixHands(table, t.cursor, h);
    } else {
      assert t.published + RowsOf([], table) == t.published;
    }
  }

  lemma PrefixHands(table: map<i64, nat>, cursor: i64, h: seq<i64>)
    requires h <= Sorted(Above(table.Keys, cursor))
    ensures Hands(table, cursor, LastOr(h, cursor), h)
  {
    var s := Above(table.Keys, cursor);
    PrefixMembers(s, h);
    forall r | h != [] && r in table && cursor < r <= h[|h| - 1]
      ensures r in h
    {
      PrefixOfSorted(s, h, r);
    }
  }

  lemma PrefixMembers(s: set<i64>, h: seq<i64>)
    requires h <= Sorted(s)
    ensures Ascending(h) && forall r :: r in h ==> r in s && r <= h[|h| - 1]
  {
    PrefixAscends(Sorted(s), h);
  }

  lemma PrefixAscends(all: seq<i64>, h: seq<i64>)
    requires Ascending(all) && h <= all
    ensures Ascending(h) && forall r :: r in h ==> r in all && r <= h[|h| - 1]
  {
    forall r | r in h
      ensures r in all && r <= h[|h| - 1]
    {
      var i :| 0 <= i < |h| && h[i] == r;
      assert all[i] == r;
    }
  }

  lemma RowsOfMembers(h: seq<i64>, table: map<i64, nat>, row: Row)
    requires forall r :: r in h ==> r in table
    ensures row in RowsOf(h, table) <==> row.id in h && row.born == table[row.id]
  {
    var rows := RowsOf(h, table);
    if row.id in h && row.born == table[row.id] {
      var i :| 0 <= i < |h| && h[i] == row.id;
      assert rows[i] == row;
    }
  }

  lemma AppendIsOrdered(
      p: seq<Row>, start: i64, cursor: i64, cursor': i64, h: seq<i64>, table: map<i64, nat>)
    requires Ordered(p, start, cursor) && Hands(table, cursor, cursor', h)
    ensures Ordered(p + RowsOf(h, table), start, cursor')
  {
    var rows := RowsOf(h, table);
    assert forall i :: 0 <= i < |h| ==> h[i] in h && rows[i].id == h[i];
    assert forall i :: 0 <= i < |rows| ==> cursor < rows[i].id <= cursor';
    RowsAscend(p, rows, cursor);
    forall row | row in rows
      ensures start < row.id <= cursor'
    {
      RowsOfMembers(h, table, row);
    }
  }

  lemma RowsAscend(p: seq<Row>, rows: seq<Row>, cursor: i64)
    requires forall i, j :: 0 <= i < j < |p| ==> p[i].id < p[j].id
    requires forall i, j :: 0 <= i < j < |rows| ==> rows[i].id < rows[j].id
    requires forall row :: row in p ==> row.id <= cursor
    requires forall i :: 0 <= i < |rows| ==> cursor < rows[i].id
    ensures forall i, j :: 0 <= i < j < |p + rows| ==> (p + rows)[i].id < (p + rows)[j].id
  {
    assert forall i :: 0 <= i < |p| ==> p[i] in p;
  }

  /** In every run the queue's rowids strictly ascend from above the start to the cursor. */
  lemma {:induction false} RunsAreOrdered(ids: set<i64>, fromZero: bool, events: seq<Event>)
    ensures var w := Run(Started(ids, fromZero), events);
            Ordered(w.tap.published, StartCursor(ids, fromZero), w.tap.cursor)
    decreases |events|
  {
    if events != [] {
      var m := |events| - 1;
      RunsAreOrdered(ids, fromZero, events[..m]);
      var w := Run(Started(ids, fromZero), events[..m]);
      if events[m].Polled? {
        var h := PollHands(w.tap, w.table, events[m].ok, events[m].failing);
        var t := Poll(w.tap, w.table, events[m].ok, events[m].failing);
        AppendIsOrdered(w.tap.published, StartCursor(ids, fromZero), w.tap.cursor, t.cursor, h, w.table);
      }
    }
  }

  /** Where the cursor stood after 0, 1, 2, ... events. */
  function History(w: World, events: seq<Event>): (at: seq<i64>)
    ensures |at| == |events| + 1
  {
    if events == [] then [w.tap.cursor]
    else History(w, events[..|events| - 1]) + [Run(w, events).tap.cursor]
  }

  lemma {:induction false} HistoryAt(w: World, events: seq<Event>, time: nat)
    requires time <= |events|
    ensures History(w, events)[time] == CursorAt(w, events, time)
    decreases |events|
  {
    if time < |events| {
      assert events[..|events| - 1][..time] == events[..time];
      HistoryAt(w, events[..|events| - 1], time);
    } else {
      assert events[..time] == events;
    }
  }

  ghost predicate NeverFalls(at: seq<i64>) {
    forall i, j :: 0 <= i <= j < |at| ==> at[i] <= at[j]
  }

  /** A row of the table is published exactly if it was inserted ahead of the cursor and passed. */
  ghost predicate TableExact(w: World, at: seq<i64>) {
    forall r :: r in w.table ==>
      && w.table[r] < |at|
      && (Row(r, w.table[r]) in w.tap.published <==> at[w.table[r]] < r <= w.tap.cursor)
  }

  /** A published row was inserted ahead of the cursor and passed. */
  ghost predicate QueueExact(w: World, at: seq<i64>) {
    forall row :: row in w.tap.published ==> row.born + 1 < |at| && at[row.born] < row.id <= w.tap.cursor
  }

  ghost predicate Exact(w: World, at: seq<i64>) {
    && at != [] && at[|at| - 1] == w.tap.cursor && NeverFalls(at)
    && TableExact(w, at) && QueueExact(w, at)
  }

  lemma StepIsExact(w: World, e: Event, at: seq<i64>)
    requires Exact(w, at)
    ensures Exact(Step(w, e, |at| - 1), at + [Step(w, e, |at| - 1).tap.cursor])
  {
    match e
    case Insert(r) => InsertIsExact(w, r, at);
    case Delete(r) =>
    case Polled(ok, failing) => PollIsExact(w, ok, failing, at);
  }

  lemma PollIsExact(w: World, ok: bool, failing: set<i64>, at: seq<i64>)
    requires Exact(w, at)
    ensures var w' := w.(tap := Poll(w.tap, w.table, ok, failing)); Exact(w', at + [w'.tap.cursor])
  {
    var h := PollHands(w.tap, w.table, ok, failing);
    var w' := w.(tap := Poll(w.tap, w.table, ok, failing));
    PollIsTableExact(w, w', h, at);
    PollIsQueueExact(w, w', h, at);
  }

  lemma InsertIsExact(w: World, r: i64, at: seq<i64>)
    requires Exact(w, at)
    ensures Exact(Step(w, Insert(r), |at| - 1), at + [w.tap.cursor])
  {
    assert Row(r, |at| - 1) !in w.tap.published;
  }

  lemma PollIsTableExact(w: World, w': World, h: seq<i64>, at: seq<i64>)
    requires Exact(w, at) && Hands(w.table, w.tap.cursor, w'.tap.cursor, h)
    requires w'.table == w.table && w'.tap.published == w.tap.published + RowsOf(h, w.table)
    ensures TableExact(w', at + [w'.tap.cursor])
  {
    forall r | r in w.table
      ensures w.table[r] < |at| && (Row(r, w.table[r]) in w'.tap.published <==> at[w.table[r]] < r <= w'.tap.cursor)
    {
      RowsOfMembers(h, w.table, Row(r, w.table[r]));
      assert at[w.table[r]] <= w.tap.cursor;
    }
  }

  lemma PollIsQueueExact(w: World, w': World, h: seq<i64>, at: seq<i64>)
    requires Exact(w, at) && Hands(w.table, w.tap.cursor, w'.tap.cursor, h)
    requires w'.table == w.table && w'.tap.published == w.tap.published + RowsOf(h, w.table)
    ensures QueueExact(w', at + [w'.tap.cursor])
  {
    forall row | row in RowsOf(h, w.table)
      ensures row.born < |at| && at[row.born] < row.id <= w'.tap.cursor
    {
      RowsOfMembers(h, w.table, row);
      assert at[row.born] <= w.tap.cursor;
    }
  }

  lemma {:induction false} RunsAreExact(ids: set<i64>, fromZero: bool, events: seq<Event>)
    ensures Exact(Run(Started(ids, fromZero), events), History(Started(ids, fromZero), events))
    decreases |events|
  {
    var w := Started(ids, fromZero);
    if events != [] {
      var m := |events| - 1;
      RunsAreExact(ids, fromZero, events[..m]);
      StepIsExact(Run(w, events[..m]), events[m], History(w, events[..m]));
    }
  }

  /** In every reachable world a row of the table was published exactly when it was inserted
      ahead of the cursor and the cursor has passed it since. A row under a used rowid is a
      row of its own. */
  lemma PublishedExactlyWhen(ids: set<i64>, fromZero: bool, events: seq<Event>, r: i64)
    requires r in Run(Started(ids, fromZero), events).table
    ensures var w := Run(Started(ids, fromZero), events);
            Row(r, w.table[r]) in w.tap.published <==> Passed(Started(ids, fromZero), events, Row(r, w.table[r]))
  {
    RunsAreExact(ids, fromZero, events);
    HistoryAt(Started(ids, fromZero), events, Run(Started(ids, fromZero), events).table[r]);
  }

  /** Whatever was published, still in the table or not, was such a row. */
  lemma PublishedWasPassed(ids: set<i64>, fromZero: bool, events: seq<Event>, row: Row)
    requires row in Run(Started(ids, fromZero), events).tap.published
    ensures Passed(Started(ids, fromZero), events, row)
  {
    RunsAreExact(ids, fromZero, events);
    HistoryAt(Started(ids, fromZero), events, row.born);
  }

  /** A row inserted at or behind the cursor is missed for good, however the run goes on;
      so is a new row under a rowid already published. */
  lemma LateRowsAreNeverPublished(
      ids: set<i64>, fromZero: bool, events: seq<Event>, i: nat)
    requires i < |events| && events[i].Insert?
    requires events[i].row <= CursorAt(Started(ids, fromZero), events, i)
    ensures Row(events[i].row, i) !in Run(Started(ids, fromZero), events).tap.published
  {
    if Row(events[i].row, i) in Run(Started(ids, fromZero), events).tap.published {
      PublishedWasPassed(ids, fromZero, events, Row(events[i].row, i));
      assert false;
    }
  }

  // ------------------------------------------------------------ rising rowids

  /** The insert takes a rowid above the start and above all that came before it. */
  ghost predicate Rises(ids: set<i64>, start: i64, events: seq<Event>, i: nat)
    requires i < |events|
  {
    events[i].Insert? ==>
      && events[i].row > start
      && (forall r :: r in ids ==> r < events[i].row)
      && (forall j :: 0 <= j < i && events[j].Insert? ==> events[j].row < events[i].row)
  }

  ghost predicate RisingRun(ids: set<i64>, start: i64, events: seq<Event>) {
    forall i :: 0 <= i < |events| ==> Rises(ids, start, events, i)
  }

  /** Every rowid in the table or the queue was there at first or was inserted, and `born` says when. */
  ghost predicate Sourced(ids: set<i64>, events: seq<Event>, row: Row) {
    || (row.born == 0 && row.id in ids)
    || (row.born < |events| && events[row.born] == Insert(row.id))
  }

  ghost predicate AllSourced(ids: set<i64>, events: seq<Event>, w: World) {
    && (forall r :: r in w.table ==> Sourced(ids, events, Row(r, w.table[r])))
    && (forall row :: row in w.tap.published ==> Sourced(ids, events, row))
  }

  lemma {:induction false} RunsAreSourced(ids: set<i64>, fromZero: bool, events: seq<Event>)
    ensures AllSourced(ids, events, Run(Started(ids, fromZero), events))
    decreases |events|
  {
    if events != [] {
      var m := |events| - 1;
      var w, e := Run(Started(ids, fromZero), events[..m]), events[m];
      RunsAreSourced(ids, fromZero, events[..m]);
      assert forall row :: Sourced(ids, events[..m], row) ==> Sourced(ids, events, row);
      if e.Polled? {
        var h := PollHands(w.tap, w.table, e.ok, e.failing);
        forall row | row in RowsOf(h, w.table)
          ensures Sourced(ids, events, row)
        {
          RowsOfMembers(h, w.table, row);
        }
      }
    }
  }

  /** The cursor stands at its start or on a rowid that was used before. */
  lemma CursorIsUsed(ids: set<i64>, fromZero: bool, events: seq<Event>)
    ensures var c := Run(Started(ids, fromZero), events).tap.cursor;
            c == StartCursor(ids, fromZero) || exists row: Row :: row.id == c && Sourced(ids, events, row)
  {
    RunsAreOrdered(ids, fromZero, events);
    RunsAreSourced(ids, fromZero, events);
    var p := Run(Started(ids, fromZero), events).tap.published;
    assert p != [] ==> p[|p| - 1] in p;
  }

  /** With rising rowids every insert is ahead of the cursor. */
  lemma RisingIsAhead(ids: set<i64>, fromZero: bool, events: seq<Event>, i: nat)
    requires RisingRun(ids, StartCursor(ids, fromZero), events) && i < |events| && events[i].Insert?
    ensures CursorAt(Started(ids, fromZero), events, i) < events[i].row
  {
    assert Rises(ids, StartCursor(ids, fromZero), events, i);
    CursorIsUsed(ids, fromZero, events[..i]);
  }

  /** With rising rowids no row is missed: what lies above the start is published once the
      cursor has passed it, and only then. */
  lemma RisingRowidsLoseNothing(ids: set<i64>, fromZero: bool, events: seq<Event>, r: i64)
    requires RisingRun(ids, StartCursor(ids, fromZero), events)
    requires r in Run(Started(ids, fromZero), events).table
    ensures var w := Run(Started(ids, fromZero), events);
            Row(r, w.table[r]) in w.tap.published <==> StartCursor(ids, fromZero) < r <= w.tap.cursor
  {
    var w := Run(Started(ids, fromZero), events);
    var b := w.table[r];
    PublishedExactlyWhen(ids, fromZero, events, r);
    RunsAreExact(ids, fromZero, events);
    HistoryAt(Started(ids, fromZero), events, 0);
    HistoryAt(Started(ids, fromZero), events, b);
    assert events[..0] == [];
    RunsAreSourced(ids, fromZero, events);
    assert Sourced(ids, events, Row(r, b));
    if b < |events| && events[b] == Insert(r) {
      RisingIsAhead(ids, fromZero, events, b);
    }
  }

  // ------------------------------------------------------------ progress

  function Outstanding(w: World): nat {
    |Above(w.table.Keys, w.tap.cursor)|
  }

  lemma TailIsGreater(all: seq<i64>, n: nat, x: i64)
    requires Ascending(all) && 0 < n <= |all|
    ensures x in all[n..] <==> x in all && x > all[n - 1]
  {
    if x in all && x > all[n - 1] {
      var i :| 0 <= i < |all| && all[i] == x;
      assert all[n..][i - n] == x;
    }
  }

  lemma RestOfSorted(table: set<i64>, cursor: i64, n: nat)
    requires 0 < n <= |Above(table, cursor)|
    ensures |Above(table, Sorted(Above(table, cursor))[n - 1])| == |Above(table, cursor)| - n
  {
    var all := Sorted(Above(table, cursor));
    var c := all[n - 1];
    assert c in all;
    assert Ascending(all[n..]);
    RestIsTail(table, cursor, all, n);
    AscendingIsUnique(Sorted(Above(table, c)), all[n..]);
  }

  lemma RestIsTail(table: set<i64>, cursor: i64, all: seq<i64>, n: nat)
    requires Ascending(all) && forall x :: x in all <==> x in Above(table, cursor)
    requires 0 < n <= |all| && all[n - 1] > cursor
    ensures forall x :: x in Above(table, all[n - 1]) <==> x in all[n..]
  {
    forall x: i64
      ensures x in Above(table, all[n - 1]) <==> x in all[n..]
    {
      TailIsGreater(all, n, x);
    }
  }

  /** A poll without a failure hands over a full page, or everything outstanding. */
  lemma PollProgress(w: World, now: nat)
    requires w.tap.alive
    ensures var w' := Step(w, Polled(true, {}), now);
            && w'.tap.alive && w'.table == w.table
            && Outstanding(w') == (if Outstanding(w) <= 1000 then 0 else Outstanding(w) - 1000)
            && |w'.tap.published| == |w.tap.published| + Outstanding(w) - Outstanding(w')
  {
    var ids := Page(w.table.Keys, w.tap.cursor);
    var h := HandedOver(ids, {});
    assert h == ids;
    var n := |ids|;
    if n > 0 {
      RestOfSorted(w.table.Keys, w.tap.cursor, n);
      assert ids[n - 1] == Sorted(Above(w.table.Keys, w.tap.cursor))[n - 1];
    }
  }

  function Polls(k: nat): seq<Event> {
    seq(k, i => Polled(true, {}))
  }

  function Rest(outstanding: nat, k: nat): nat {
    if outstanding <= k * LIMIT then 0 else outstanding - k * LIMIT
  }

  /** `k` polls without failures work off `k` pages of the backlog. */
  lemma {:induction false} PollsCatchUp(w: World, events: seq<Event>, k: nat)
    requires Run(w, events).tap.alive
    ensures var v, v' := Run(w, events), Run(w, events + Polls(k));
            v'.tap.alive && v'.table == v.table && Outstanding(v') == Rest(Outstanding(v), k)
    decreases k
  {
    if k == 0 {
      assert events + Polls(0) == events;
    } else {
      PollsCatchUp(w, events, k - 1);
      OneMorePoll(w, events, k);
      PollProgress(Run(w, events + Polls(k - 1)), |events| + k - 1);
    }
  }

  lemma OneMorePoll(w: World, events: seq<Event>, k: nat)
    requires k > 0
    ensures Run(w, events + Polls(k)) == Step(Run(w, events + Polls(k - 1)), Polled(true, {}), |events| + k - 1)
  {
    var all := events + Polls(k);
    assert all[..|all| - 1] == events + Polls(k - 1);
  }

  lemma NothingOutstanding(w: World, r: i64)
    requires Outstanding(w) == 0 && r in w.table
    ensures r <= w.tap.cursor
  {
    assert Above(w.table.Keys, w.tap.cursor) == {};
    assert r !in Above(w.table.Keys, w.tap.cursor);
  }

  lemma PollsRise(ids: set<i64>, start: i64, events: seq<Event>, k: nat)
    requires RisingRun(ids, start, events)
    ensures RisingRun(ids, start, events + Polls(k))
  {
    var all := events + Polls(k);
    forall i | 0 <= i < |all|
      ensures Rises(ids, start, all, i)
    {
      if i < |events| {
        assert Rises(ids, start, events, i);
        assert forall j :: 0 <= j <= i ==> all[j] == events[j];
      }
    }
  }

  /** End to end: with rising rowids, a live tap that polls often enough after the last
      change has published every row of the table above its start. */
  lemma EveryRowIsPublished(ids: set<i64>, fromZero: bool, events: seq<Event>, k: nat, r: i64)
    requires RisingRun(ids, StartCursor(ids, fromZero), events)
    requires Run(Started(ids, fromZero), events).tap.alive
    requires Outstanding(Run(Started(ids, fromZero), events)) <= k * LIMIT
    requires r in Run(Started(ids, fromZero), events).table && r > StartCursor(ids, fromZero)
    ensures var w := Run(Started(ids, fromZero), events);
            Row(r, w.table[r]) in Run(Started(ids, fromZero), events + Polls(k)).tap.published
  {
    var w := Started(ids, fromZero);
    PollsCatchUp(w, events, k);
    NothingOutstanding(Run(w, events + Polls(k)), r);
    PollsRise(ids, StartCursor(ids, fromZero), events, k);
    RisingRowidsLoseNothing(ids, fromZero, events + Polls(k), r);
  }

  // ------------------------------------------------------------ where the tap begins

  /** Not told to begin at zero, the tap never publishes a row that was there before it. */
  lemma RowsBeforeTheTapAreSkipped(ids: set<i64>, events: seq<Event>, row: Row)
    requires row in Run(Started(ids, false), events).tap.published
    ensures forall r :: r in ids ==> r < row.id
    ensures ids == {} ==> row.id > 0
  {
    RunsAreOrdered(ids, false, events);
    forall r | r in ids
      ensures r <= StartCursor(ids, false)
    {
      GreatestIsLast(Sorted(ids), r);
    }
  }

  lemma GreatestIsLast(s: seq<i64>, r: i64)
    requires Ascending(s) && r in s
    ensures r <= s[|s| - 1]
  {
  }

  /** Told to begin at zero it publishes, with rising rowids and enough polls, every row of the
      table with a positive rowid, those that were there before it included. */
  lemma FromZeroPublishesAll(ids: set<i64>, events: seq<Event>, k: nat, r: i64)
    requires RisingRun(ids, 0, events) && Run(Started(ids, true), events).tap.alive
    requires Outstanding(Run(Started(ids, true), events)) <= k * LIMIT
    requires r in Run(Started(ids, true), events).table && r > 0
    ensures var w := Run(Started(ids, true), events);
            Row(r, w.table[r]) in Run(Started(ids, true), events + Polls(k)).tap.published
  {
    EveryRowIsPublished(ids, true, events, k, r);
  }

  // ------------------------------------------------------------ failing polls

  /** A poll of a live tap ends it exactly when the publish of some row of the page fails. A
      failed select changes nothing. */
  lemma FailureEndsExactlyWhen(t: Tap, table: map<i64, nat>, failing: set<i64>)
    requires t.alive
    ensures Poll(t, table, false, failing) == t
    ensures !Poll(t, table, true, failing).alive
       <==> exists r :: r in Page(table.Keys, t.cursor) && r in failing
  {
    CompleteExactlyWhen(Page(table.Keys, t.cursor), failing);
  }

  /** A poll never publishes a row whose publish fails. */
  lemma FailingRowsAreNotPublished(t: Tap, table: map<i64, nat>, failing: set<i64>, row: Row)
    requires row in Poll(t, table, true, failing).published && row !in t.published
    ensures row.id !in failing
  {
    HandedIsPrefix(table.Keys, t.cursor, failing);
    RowsOfMembers(HandedOver(Page(table.Keys, t.cursor), failing), table, row);
  }

  lemma CompleteExactlyWhen(page: seq<i64>, failing: set<i64>)
    ensures |HandedOver(page, failing)| < |page| <==> exists r :: r in page && r in failing
  {
    var h := HandedOver(page, failing);
    if |h| == |page| {
      assert h == page;
    } else {
      assert page[|h|] in page;
    }
  }

  /** A tap that has ended never publishes again. */
  lemma {:induction false} EndedTapIsSilent(w: World, events: seq<Event>, more: seq<Event>)
    requires !Run(w, events).tap.alive
    ensures Run(w, events + more).tap == Run(w, events).tap
    decreases |more|
  {
    if more == [] {
      assert events + more == events;
    } else {
      var all, m := events + more, |more| - 1;
      assert all[..|all| - 1] == events + more[..m];
      EndedTapIsSilent(w, events, more[..m]);
    }
  }
}

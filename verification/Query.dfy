/** The whole reference query over participant_join: filter, partition, group, aggregate. */
module Query {
  import opened Domain
  import opened Grouping
  import opened Windowing
  import JoinStore
  import StoreInvariants

  /** PARTITION BY backend, room_name, participant_identity. */
  datatype PartitionKey = PartitionKey(backend: Text, roomName: Text, identity: Text)

  function KeyOf(j: Join): PartitionKey { PartitionKey(j.backend, j.roomName, j.identity) }

  /** The rows of one partition that match the window, in table order. */
  function Rows(table: seq<Join>, key: PartitionKey, w1: Instant, w2: Instant): (rows: seq<Join>)
    requires w1 <= w2 && forall i :: 0 <= i < |table| ==> EndsAfterStart(table[i])
    ensures |rows| <= |table| && forall j :: j in rows ==> j in table && KeyOf(j) == key
  {
    if |table| == 0 then []
    else
      var n := |table| - 1;
      Rows(table[..n], key, w1, w2) +
      (if KeyOf(table[n]) == key && Matched(table[n], w1, w2) then [table[n]] else [])
  }

  lemma {:induction false} RowsSorted(table: seq<Join>, key: PartitionKey, w1: Instant, w2: Instant)
    requires w1 <= w2 && History(table)
    ensures Sorted(Rows(table, key, w1, w2))
    decreases |table|
  {
    if |table| == 0 {
    } else {
      var n := |table| - 1;
      RowsSorted(table[..n], key, w1, w2);
      var before := Rows(table[..n], key, w1, w2);
      assert forall i :: 0 <= i < |before| ==> before[i] in table[..n];
    }
  }

  datatype SessionRow = SessionRow(
    key: PartitionKey, ordinal: int, startedAt: Instant, stillOpen: bool, joins: int, reconnects: int)

  function Aggregate(key: PartitionKey, o: int, group: seq<Join>): SessionRow
    requires |group| > 0
  {
    SessionRow(key, o, MinStart(group), AnyOpen(group), |group|, |group| - 1)
  }

  function Keys(table: seq<Join>): set<PartitionKey> { set j | j in table :: KeyOf(j) }

  /** The result: one row per (key, ordinal) that some matched join has. */
  function Result(table: seq<Join>, w1: Instant, w2: Instant, gap: int): set<SessionRow>
    requires w1 <= w2 && forall i :: 0 <= i < |table| ==> EndsAfterStart(table[i])
  {
    set key, o |
      && key in Keys(table) && 0 <= o <= |table|
      && |Group(Rows(table, key, w1, w2), |Rows(table, key, w1, w2)|, gap, o)| > 0
      :: Aggregate(key, o, Group(Rows(table, key, w1, w2), |Rows(table, key, w1, w2)|, gap, o))
  }

  /** The row that describes a session through its accessors. */
  function Describe(key: PartitionKey, o: int, s: Session): SessionRow
    requires |s.joins| > 0
  {
    SessionRow(key, o, s.StartedAt(), s.IsOpen(), |s.joins|, s.Reconnects())
  }

  /** The sessions of one participant in one room under a window and a threshold. */
  function SessionsOf(table: seq<Join>, key: PartitionKey, w1: Instant, w2: Instant, gap: int): (ss: seq<seq<Join>>)
    requires w1 <= w2 && forall i :: 0 <= i < |table| ==> EndsAfterStart(table[i])
    ensures forall i :: 0 <= i < |ss| ==> |ss[i]| > 0
  {
    var rows := Rows(table, key, w1, w2);
    Sessions(rows, |rows|, gap)
  }

  lemma {:induction false} SessionsSorted(rows: seq<Join>, n: nat, gap: int)
    requires n <= |rows| && Sorted(rows)
    ensures
      var ss := Sessions(rows, n, gap);
      && |ss| <= n
      && (forall i, m :: 0 <= i < |ss| && 0 <= m < |ss[i]| ==> n > 0 && ss[i][m].startedAt <= rows[n - 1].startedAt)
      && forall i :: 0 <= i < |ss| ==> Sorted(ss[i])
    decreases n
  {
    if n == 0 {
    } else {
      SessionsSorted(rows, n - 1, gap);
    }
  }

  /** One partition: a group is a session and its aggregates are the session's accessors. */
  lemma GroupIsSession(rows: seq<Join>, gap: int, o: int)
    requires Sorted(rows)
    ensures
      var ss, group := Sessions(rows, |rows|, gap), Group(rows, |rows|, gap, o);
      && (|group| > 0 <==> 1 <= o <= |ss|)
      && |ss| <= |rows|
      && (|group| > 0 ==>
            && group == ss[o - 1]
            && forall key :: Aggregate(key, o, group) == Describe(key, o, Session(gap, ss[o - 1])))
  {
    GroupsAreSessions(rows, |rows|, gap);
    SessionsSorted(rows, |rows|, gap);
    SessionsMaximal(rows, |rows|, gap);
    var ss := Sessions(rows, |rows|, gap);
    if 1 <= o <= |ss| {
      AggregatesAreAccessors(ss[o - 1], gap);
    }
  }

  lemma SessionHasKey(table: seq<Join>, key: PartitionKey, w1: Instant, w2: Instant, gap: int)
    requires w1 <= w2 && History(table)
    ensures |SessionsOf(table, key, w1, w2, gap)| > 0 ==> key in Keys(table)
  {
    if |Rows(table, key, w1, w2)| > 0 {
      RowsHaveKey(table, key, w1, w2);
    }
  }

  lemma {:induction false} RowsHaveKey(table: seq<Join>, key: PartitionKey, w1: Instant, w2: Instant)
    requires w1 <= w2 && forall i :: 0 <= i < |table| ==> EndsAfterStart(table[i])
    ensures |Rows(table, key, w1, w2)| > 0 ==> key in Keys(table)
    decreases |table|
  {
    if |table| == 0 {
    } else {
      var n := |table| - 1;
      RowsHaveKey(table[..n], key, w1, w2);
      assert forall j :: j in table[..n] ==> j in table;
      assert table[n] in table;
    }
  }

  /** The query returns, for every participant and room, exactly the descriptions of its sessions:
      numbered from 1, each with its start, whether it is open, its joins and its reconnects. */
  lemma QueryReturnsSessions(table: seq<Join>, w1: Instant, w2: Instant, gap: int, row: SessionRow)
    requires w1 <= w2 && History(table)
    ensures row in Result(table, w1, w2, gap) <==>
            var ss := SessionsOf(table, row.key, w1, w2, gap);
            && 1 <= row.ordinal <= |ss|
            && row == Describe(row.key, row.ordinal, Session(gap, ss[row.ordinal - 1]))
  {
    var key, o := row.key, row.ordinal;
    RowsSorted(table, key, w1, w2);
    GroupIsSession(Rows(table, key, w1, w2), gap, o);
    SessionHasKey(table, key, w1, w2, gap);
  }

  // ---- what the rows and their summaries are ----

  predicate SameParticipant(j: Join, key: PartitionKey) {
    j.backend == key.backend && j.roomName == key.roomName && j.identity == key.identity
  }

  lemma CountSnoc(rows: seq<Join>, last: Join, j: Join)
    ensures multiset(rows + [last])[j] == multiset(rows)[j] + (if last == j then 1 else 0)
  {
  }

  lemma TableCountSnoc(table: seq<Join>, j: Join)
    requires |table| > 0
    ensures
      var last, before := table[|table| - 1], table[..|table| - 1];
      multiset(table)[j] == multiset(before)[j] + (if last == j then 1 else 0)
  {
    assert table == table[..|table| - 1] + [table[|table| - 1]];
  }

  /** The participant's, started before the window's end, and present after its start. */
  predicate Shown(j: Join, key: PartitionKey, w1: Instant, w2: Instant) {
    SameParticipant(j, key) && j.startedAt < w2 && Outlasts(j, w1)
  }

  lemma RowsCountSnoc(table: seq<Join>, key: PartitionKey, w1: Instant, w2: Instant, j: Join)
    requires |table| > 0 && w1 < w2 && forall i :: 0 <= i < |table| ==> EndsAfterStart(table[i])
    ensures
      var last, before := table[|table| - 1], table[..|table| - 1];
      multiset(Rows(table, key, w1, w2))[j] ==
      multiset(Rows(before, key, w1, w2))[j] + (if last == j && Shown(j, key, w1, w2) then 1 else 0)
  {
    MatchedClosedForm(table[|table| - 1], w1, w2);
    CountSnoc(Rows(table[..|table| - 1], key, w1, w2), table[|table| - 1], j);
  }

  /** The rows hold every join of the table that is to be shown, as often as the table does, and no other. */
  lemma {:induction false} RowsExactly(table: seq<Join>, key: PartitionKey, w1: Instant, w2: Instant, j: Join)
    requires w1 < w2 && forall i :: 0 <= i < |table| ==> EndsAfterStart(table[i])
    ensures multiset(Rows(table, key, w1, w2))[j] == if Shown(j, key, w1, w2) then multiset(table)[j] else 0
    decreases |table|
  {
    if |table| == 0 {
    } else {
      RowsExactly(table[..|table| - 1], key, w1, w2, j);
      RowsCountSnoc(table, key, w1, w2, j);
      TableCountSnoc(table, j);
    }
  }

  /** A window of no length shows nothing. */
  lemma {:induction false} EmptyWindow(table: seq<Join>, key: PartitionKey, w: Instant)
    requires forall i :: 0 <= i < |table| ==> EndsAfterStart(table[i])
    ensures Rows(table, key, w, w) == []
    decreases |table|
  {
    if |table| == 0 {
    } else {
      EmptyWindow(table[..|table| - 1], key, w);
    }
  }

  /** The row says of the joins: their earliest start, whether any is open, how many there are and how many of
      them are reconnects. */
  ghost predicate Summarises(row: SessionRow, joins: seq<Join>) {
    && (forall j :: j in joins ==> row.startedAt <= j.startedAt)
    && (exists j :: j in joins && j.startedAt == row.startedAt)
    && (row.stillOpen <==> exists j :: j in joins && j.endedAt.None?)
    && row.joins == |joins| && row.reconnects == |joins| - 1
  }

  lemma AggregateSummarises(key: PartitionKey, o: int, group: seq<Join>)
    requires |group| > 0 && Sorted(group)
    ensures Summarises(Aggregate(key, o, group), group)
  {
    MinIsFirst(group);
    assert group[0] in group;
    if i :| 0 <= i < |group| && group[i].IsOpen() {
      assert group[i] in group;
    }
  }

  /** Every row of the result is the summary of its session. */
  lemma RowSummarisesSession(table: seq<Join>, w1: Instant, w2: Instant, gap: int, row: SessionRow)
    requires w1 <= w2 && History(table) && row in Result(table, w1, w2, gap)
    ensures 1 <= row.ordinal <= |SessionsOf(table, row.key, w1, w2, gap)|
    ensures Summarises(row, SessionsOf(table, row.key, w1, w2, gap)[row.ordinal - 1])
  {
    var rows := Rows(table, row.key, w1, w2);
    RowsSorted(table, row.key, w1, w2);
    GroupIsSession(rows, gap, row.ordinal);
    SessionsSorted(rows, |rows|, gap);
    AggregateSummarises(row.key, row.ordinal, Group(rows, |rows|, gap, row.ordinal));
  }

  /** What the query asks of the table holds of every table a run produces. */
  lemma StoredJoinsFitTheirRange(parts: seq<JoinStore.Partition>, ds: seq<JoinStore.Delivery>)
    ensures
      var joins := JoinStore.After(parts, JoinStore.EMPTY, ds).joins;
      forall id :: id in joins ==> EndsAfterStart(joins[id])
  {
    StoreInvariants.EveryRunHasProvenance(parts, ds);
    var db := JoinStore.After(parts, JoinStore.EMPTY, ds);
    assert forall id :: id in db.joins ==> StoreInvariants.EndObserved(db.events, db.joins[id]);
  }

  // ---- from an event to the sessions it ends ----

  /** The table holds rows of the store, in some order sorted by started_at. */
  ghost predicate Lists(table: seq<Join>, joins: map<Id, Join>) {
    History(table) && forall j :: j in table ==> exists id :: id in joins && joins[id] == j
  }

  lemma {:induction false} SessionJoinsAreRows(rows: seq<Join>, n: nat, gap: int, i: nat, j: Join)
    requires n <= |rows| && i < |Sessions(rows, n, gap)| && j in Sessions(rows, n, gap)[i]
    ensures j in rows
    decreases n
  {
    var before := Sessions(rows, n - 1, gap);
    if i < |before| && j in before[i] {
      SessionJoinsAreRows(rows, n - 1, gap, i, j);
    } else {
      assert j == rows[n - 1];
    }
  }

  ghost predicate RoomClosed(joins: map<Id, Join>, ev: Event) {
    forall id :: id in joins ==> !JoinStore.OpenInRoom(joins[id], ev)
  }

  /** The delivery opened a join in the event's room. */
  predicate OpensRoom(d: JoinStore.Delivery, outcome: JoinStore.Outcome, ev: Event) {
    d.ev.backend == ev.backend && d.ev.roomName == ev.roomName && outcome.Ok? && outcome.result.joinOpened
  }

  lemma RoomStaysClosedStep(parts: seq<JoinStore.Partition>, db: JoinStore.Db, d: JoinStore.Delivery, ev: Event)
    requires RoomClosed(db.joins, ev) && !OpensRoom(d, JoinStore.Step(parts, db, d).1, ev)
    ensures RoomClosed(JoinStore.Step(parts, db, d).0.joins, ev)
  {
  }

  lemma {:induction false} RoomStaysClosed(
    parts: seq<JoinStore.Partition>, db: JoinStore.Db, ds: seq<JoinStore.Delivery>, ev: Event)
    requires RoomClosed(db.joins, ev)
    requires forall i :: 0 <= i < |ds| ==> !OpensRoom(ds[i], JoinStore.Outcomes(parts, db, ds)[i], ev)
    ensures RoomClosed(JoinStore.After(parts, db, ds).joins, ev)
    decreases ds
  {
    if |ds| == 0 {
    } else {
      var next := JoinStore.Step(parts, db, ds[0]).0;
      assert !OpensRoom(ds[0], JoinStore.Outcomes(parts, db, ds)[0], ev);
      RoomStaysClosedStep(parts, db, ds[0], ev);
      forall i | 0 <= i < |ds[1..]| ensures !OpensRoom(ds[1..][i], JoinStore.Outcomes(parts, next, ds[1..])[i], ev) {
        assert !OpensRoom(ds[i + 1], JoinStore.Outcomes(parts, db, ds)[i + 1], ev);
      }
      RoomStaysClosed(parts, next, ds[1..], ev);
    }
  }

  lemma ClosedRoomHasNoOpenSession(
    joins: map<Id, Join>, ev: Event, table: seq<Join>, w1: Instant, w2: Instant, gap: int, row: SessionRow)
    requires RoomClosed(joins, ev) && Lists(table, joins) && w1 <= w2 && row in Result(table, w1, w2, gap)
    requires row.key.backend == ev.backend && row.key.roomName == ev.roomName
    ensures !row.stillOpen
  {
    QueryReturnsSessions(table, w1, w2, gap, row);
    var rows := Rows(table, row.key, w1, w2);
    var session := SessionsOf(table, row.key, w1, w2, gap)[row.ordinal - 1];
    var last := session[|session| - 1];
    SessionJoinsAreRows(rows, |rows|, gap, row.ordinal - 1, last);
    var id :| id in joins && joins[id] == last;
  }

  /** From a stored room_finished on, as long as no further join is opened in that room, no query at any
      window or threshold shows an open session there. */
  lemma {:induction false} RoomFinishedEndsSessions(
    parts: seq<JoinStore.Partition>, db: JoinStore.Db, d: JoinStore.Delivery, later: seq<JoinStore.Delivery>,
    table: seq<Join>, w1: Instant, w2: Instant, gap: int, row: SessionRow)
    requires JoinStore.Stores(parts, db, d) && d.ev.eventType == ROOM_FINISHED
    requires
      var next := JoinStore.Step(parts, db, d).0;
      && (forall i :: 0 <= i < |later| ==> !OpensRoom(later[i], JoinStore.Outcomes(parts, next, later)[i], d.ev))
      && Lists(table, JoinStore.After(parts, next, later).joins)
    requires w1 <= w2 && row in Result(table, w1, w2, gap)
    requires row.key.backend == d.ev.backend && row.key.roomName == d.ev.roomName
    ensures !row.stillOpen
  {
    var next := JoinStore.Step(parts, db, d).0;
    JoinStore.StoringStep(parts, db, d);
    assert RoomClosed(next.joins, d.ev);
    RoomStaysClosed(parts, next, later, d.ev);
    ClosedRoomHasNoOpenSession(JoinStore.After(parts, next, later).joins, d.ev, table, w1, w2, gap, row);
  }
}

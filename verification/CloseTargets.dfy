/** Which rows a stored close touches, stated on the step's result alone. */
module CloseTargets {
  import opened Domain
  import opened JoinStore

  /** ORDER BY ... LIMIT 1 over a non-empty set of rows returns a row. */
  lemma {:induction false} LatestExists(joins: map<Id, Join>, ids: set<Id>)
    requires ids <= joins.Keys && ids != {}
    ensures Latest(joins, ids) != {}
    decreases |ids|
  {
    var id :| id in ids;
    var rest := ids - {id};
    if rest != {} {
      LatestExists(joins, rest);
      var best :| best in Latest(joins, rest);
      if joins[best].startedAt <= joins[id].startedAt {
        assert id in Latest(joins, ids);
      } else {
        assert best in Latest(joins, ids);
      }
    } else {
      assert ids == {id};
      assert id in Latest(joins, ids);
    }
  }

  predicate SidMatch(j: Join, ev: Event) {
    OpenInRoom(j, ev) && ev.sid != [] && j.sid == Some(ev.sid)
  }

  /** The open joins of the event's room that carry its SID. */
  function SidRows(joins: map<Id, Join>, ev: Event): set<Id> {
    set id | id in joins && SidMatch(joins[id], ev)
  }

  predicate IdentityMatch(j: Join, ev: Event) {
    OpenInRoom(j, ev) && j.identity == ev.identity
  }

  /** Row `id` of `db` is the single row that differs in `after`, and it is closed by `ev`. */
  ghost predicate OnlyRowClosed(before: map<Id, Join>, after: map<Id, Join>, id: Id, ev: Event, reason: EndReason) {
    && id in before
    && after == before[id := ClosedBy(before[id], ev, reason)]
  }

  /** Every open join of the room with the left's SID if there is one, otherwise exactly one latest open
      join of its identity, otherwise nothing and CloseUnmatched; every other row is untouched. */
  ghost predicate LeftApplied(before: map<Id, Join>, after: map<Id, Join>, ev: Event, result: Result) {
    var bySid := exists id :: id in before && SidMatch(before[id], ev);
    var byIdentity := exists id :: id in before && IdentityMatch(before[id], ev);
    && result.stored && !result.joinOpened
    && (result.closeUnmatched <==> !bySid && !byIdentity)
    && (result.closeUnmatched ==> after == before && result.joinsClosed == 0)
    && (bySid ==>
          && result.joinsClosed == |SidRows(before, ev)|
          && after.Keys == before.Keys
          && forall id :: id in before ==>
               after[id] == if SidMatch(before[id], ev)
                            then ClosedBy(before[id], ev, EndParticipantLeft) else before[id])
    && (!bySid && byIdentity ==>
          && result.joinsClosed == 1
          && exists id ::
               && OnlyRowClosed(before, after, id, ev, EndParticipantLeft)
               && IdentityMatch(before[id], ev)
               && forall other :: other in before && IdentityMatch(before[other], ev) ==>
                    before[other].startedAt <= before[id].startedAt)
  }

  /** A stored participant_left closes exactly those rows. */
  lemma ExactLeftTarget(parts: seq<Partition>, db: Db, d: Delivery)
    requires Stores(parts, db, d) && d.ev.eventType == PARTICIPANT_LEFT
    ensures LeftApplied(db.joins, Step(parts, db, d).0.joins, d.ev, Step(parts, db, d).1.result)
  {
    var joins, ev := db.joins, d.ev;
    StoringStep(parts, db, d);
    var after := Step(parts, db, d).0.joins;
    assert after == CloseRows(joins, LeftTarget(joins, ev, d.hint), ev, EndParticipantLeft);
    if exists id :: id in joins && SidMatch(joins[id], ev) {
      LeftBySid(joins, ev, d.hint);
    } else if exists id :: id in joins && IdentityMatch(joins[id], ev) {
      var chosen := LeftByIdentity(joins, ev, d.hint);
      assert OnlyRowClosed(joins, after, chosen, ev, EndParticipantLeft);
    } else {
      LeftUnmatched(joins, ev, d.hint);
      assert after == joins;
    }
  }

  lemma LeftBySid(joins: map<Id, Join>, ev: Event, hint: Id)
    requires exists id :: id in joins && SidMatch(joins[id], ev)
    ensures LeftTarget(joins, ev, hint) == SidRows(joins, ev) != {}
  {
    var id :| id in joins && SidMatch(joins[id], ev);
    assert id in SidTarget(joins, ev);
  }

  lemma LeftByIdentity(joins: map<Id, Join>, ev: Event, hint: Id) returns (chosen: Id)
    requires !exists id :: id in joins && SidMatch(joins[id], ev)
    requires exists id :: id in joins && IdentityMatch(joins[id], ev)
    ensures LeftTarget(joins, ev, hint) == {chosen} && chosen in joins && IdentityMatch(joins[chosen], ev)
    ensures forall id :: id in joins && IdentityMatch(joins[id], ev) ==> joins[id].startedAt <= joins[chosen].startedAt
  {
    assert ev.sid == [] || SidTarget(joins, ev) == {};
    var id :| id in joins && IdentityMatch(joins[id], ev);
    var ids := IdentityTarget(joins, ev);
    assert id in ids;
    LatestExists(joins, ids);
    chosen := Pick(hint, Latest(joins, ids));
  }

  lemma LeftUnmatched(joins: map<Id, Join>, ev: Event, hint: Id)
    requires !exists id :: id in joins && SidMatch(joins[id], ev)
    requires !exists id :: id in joins && IdentityMatch(joins[id], ev)
    ensures LeftTarget(joins, ev, hint) == {}
  {
  }

  /** No join of the room is left open; every row that was is closed by the event, and no other row changes. */
  ghost predicate RoomApplied(before: map<Id, Join>, after: map<Id, Join>, ev: Event, result: Result) {
    && result == Result(true, false, |set id | id in before && OpenInRoom(before[id], ev)|, false)
    && after.Keys == before.Keys
    && (forall id :: id in after ==> !OpenInRoom(after[id], ev))
    && (forall id :: id in before ==>
          after[id] == if OpenInRoom(before[id], ev) then ClosedBy(before[id], ev, EndRoomFinished) else before[id])
  }

  ghost predicate StartedLater(joins: map<Id, Join>, id: Id, ev: Event) {
    id in joins && joins[id].startedAt > ev.occurredAt
  }

  /** Some row the close would select started after the event: for a left a row of its SID, or when there
      is none a row of its identity; for room_finished any open row of the room. */
  ghost predicate ClosesTooEarly(joins: map<Id, Join>, ev: Event) {
    match KindOf(ev.eventType)
    case ClosesOne =>
      if exists id :: id in joins && SidMatch(joins[id], ev)
      then exists id :: StartedLater(joins, id, ev) && SidMatch(joins[id], ev)
      else exists id :: StartedLater(joins, id, ev) && IdentityMatch(joins[id], ev)
    case ClosesRoom => exists id :: StartedLater(joins, id, ev) && OpenInRoom(joins[id], ev)
    case _ => false
  }

  /** The effect is out of order exactly then, whichever tie the database picks. */
  lemma OutOfOrderExactly(joins: map<Id, Join>, ev: Event, hint: Id)
    ensures JoinEffect(joins, ev, hint).OutOfOrder? <==> ClosesTooEarly(joins, ev)
  {
    match KindOf(ev.eventType) {
      case ClosesOne =>
        if exists id :: id in joins && SidMatch(joins[id], ev) {
          LeftBySid(joins, ev, hint);
        } else if exists id :: id in joins && IdentityMatch(joins[id], ev) {
          var chosen := LeftByIdentity(joins, ev, hint);
          assert StartedLater(joins, chosen, ev) <==> joins[chosen].startedAt > ev.occurredAt;
        } else {
          LeftUnmatched(joins, ev, hint);
        }
      case ClosesRoom =>
      case _ =>
    }
  }

  /** room_finished closes its whole room or nothing at all. */
  lemma RoomCloseAllOrNothing(parts: seq<Partition>, db: Db, d: Delivery)
    requires d.ev.eventType == ROOM_FINISHED && d.fault.NoFault?
    requires Covered(parts, d.ev.occurredAt) && KeyOf(d.ev) !in db.events
    ensures
      var (after, outcome) := Step(parts, db, d);
      if exists id :: StartedLater(db.joins, id, d.ev) && OpenInRoom(db.joins[id], d.ev)
      then after == db && outcome == Err(CloseOutOfOrder)
      else
        && outcome.Ok? && RoomApplied(db.joins, after.joins, d.ev, outcome.result)
        && after.events == db.events[KeyOf(d.ev) := RowOf(d.ev)]
  {
  }

  /** A participant_left is refused, and then not stored either, exactly when a row it would close by
      SID, or without one by identity, started after it; which tie the database picks plays no part. */
  lemma LeftRefusedExactly(parts: seq<Partition>, db: Db, d: Delivery)
    requires d.ev.eventType == PARTICIPANT_LEFT && d.fault.NoFault?
    requires Covered(parts, d.ev.occurredAt) && KeyOf(d.ev) !in db.events
    ensures
      var bySid := exists id :: id in db.joins && SidMatch(db.joins[id], d.ev);
      Step(parts, db, d).1 == Err(CloseOutOfOrder) <==>
      exists id ::
        && StartedLater(db.joins, id, d.ev)
        && if bySid then SidMatch(db.joins[id], d.ev) else IdentityMatch(db.joins[id], d.ev)
    ensures Step(parts, db, d).1 == Err(CloseOutOfOrder) ==> Step(parts, db, d).0 == db
    ensures Step(parts, db, d).1 != Err(CloseOutOfOrder) ==> Stores(parts, db, d)
  {
    OutOfOrderExactly(db.joins, d.ev, d.hint);
  }

  lemma SeveralMeansSid(parts: seq<Partition>, db: Db, d: Delivery)
    requires Stores(parts, db, d) && d.ev.eventType == PARTICIPANT_LEFT
    ensures Step(parts, db, d).1.result.joinsClosed > 1 <==> |SidRows(db.joins, d.ev)| > 1
  {
    ExactLeftTarget(parts, db, d);
    if |SidRows(db.joins, d.ev)| > 0 {
      var id :| id in SidRows(db.joins, d.ev);
      assert SidMatch(db.joins[id], d.ev);
    }
  }

  /** One participant_left closes several joins exactly when several open joins of its room carry its SID. */
  lemma SeveralClosedExactly(parts: seq<Partition>, db: Db, d: Delivery)
    requires Stores(parts, db, d) && d.ev.eventType == PARTICIPANT_LEFT
    ensures Step(parts, db, d).1.result.joinsClosed > 1 <==>
            exists a, b :: a in SidRows(db.joins, d.ev) && b in SidRows(db.joins, d.ev) && a != b
  {
    SeveralMeansSid(parts, db, d);
    MoreThanOne(SidRows(db.joins, d.ev));
  }

  lemma MoreThanOne<T>(s: set<T>)
    ensures |s| > 1 <==> exists a, b :: a in s && b in s && a != b
  {
    if a :| a in s {
      assert s == {a} + (s - {a});
      if |s| > 1 {
        var b :| b in s - {a};
      }
    }
  }

  // ---- the dedup key ----

  /** What an event does to the join table, by type. */
  ghost predicate EffectApplied(before: map<Id, Join>, after: map<Id, Join>, ev: Event, result: Result) {
    match KindOf(ev.eventType)
    case Opens =>
      && result == Result(true, ev.id !in before, 0, false)
      && after == if ev.id in before then before else before[ev.id := OpenedBy(ev)]
    case ClosesOne => LeftApplied(before, after, ev, result)
    case ClosesRoom => RoomApplied(before, after, ev, result)
    case NoEffect => result == Result(true, false, 0, false) && after == before
  }

  /** A delivery is a duplicate exactly when its id is stored with its time. An id that is stored with other
      times only is stored once more and takes effect once more: no second join for a joined event, but a
      left or a room_finished closes whatever it then finds, or is refused. */
  lemma SameIdOtherTime(parts: seq<Partition>, db: Db, d: Delivery)
    requires d.fault.NoFault? && Covered(parts, d.ev.occurredAt)
    ensures
      var (after, outcome) := Step(parts, db, d);
      && (outcome == DUPLICATE <==>
            exists key :: key in db.events && key.id == d.ev.id && key.occurredAt == d.ev.occurredAt)
      && (outcome == DUPLICATE ==> after == db)
      && (outcome != DUPLICATE ==>
            if ClosesTooEarly(db.joins, d.ev)
            then outcome == Err(CloseOutOfOrder) && after == db
            else
              && outcome.Ok? && EffectApplied(db.joins, after.joins, d.ev, outcome.result)
              && after.events == db.events[KeyOf(d.ev) := RowOf(d.ev)])
  {
    OutOfOrderExactly(db.joins, d.ev, d.hint);
    StoringStep(parts, db, d);
    if Stores(parts, db, d) && KindOf(d.ev.eventType).ClosesOne? {
      ExactLeftTarget(parts, db, d);
    }
  }

  /** In a run from empty tables a stored joined event has its id in the join table, so the id opens one join. */
  lemma {:induction false} JoinedIdsHaveJoins(parts: seq<Partition>, ds: seq<Delivery>, key: Key)
    requires key in After(parts, EMPTY, ds).events
    requires After(parts, EMPTY, ds).events[key].eventType == PARTICIPANT_JOINED
    ensures key.id in After(parts, EMPTY, ds).joins
    decreases |ds|
  {
    if |ds| == 0 {
    } else {
      var n := |ds| - 1;
      var before := After(parts, EMPTY, ds[..n]);
      AfterLast(parts, EMPTY, ds);
      StoringStep(parts, before, ds[n]);
      if key in before.events {
        JoinedIdsHaveJoins(parts, ds[..n], key);
      }
    }
  }

  // ---- reachable cases ----

  function Sample(id: Id, eventType: Text, at: Instant, sid: Text): Event {
    Event(id, LIVEKIT, id, eventType, at, [1], [2], [3], sid, [], [])
  }

  function SampleDelivery(id: Id, eventType: Text, at: Instant, sid: Text): Delivery {
    Delivery(Sample(id, eventType, at, sid), [], NoFault)
  }

  /** Two joins of one identity in one room, at instants 1 and 2. */
  lemma TwoJoinsOpen(parts: seq<Partition>, d1: Delivery, d2: Delivery)
    requires parts == [Partition(0, 10)] && d1.fault.NoFault? && d2.fault.NoFault? && d1.ev.id != d2.ev.id
    requires KindOf(d1.ev.eventType).Opens? && KindOf(d2.ev.eventType).Opens?
    requires d1.ev.occurredAt == 1 && d2.ev.occurredAt == 2
    ensures
      var (e1, e2) := (d1.ev, d2.ev);
      After(parts, EMPTY, [d1, d2]) ==
      Db(map[KeyOf(e1) := RowOf(e1), KeyOf(e2) := RowOf(e2)], map[e1.id := OpenedBy(e1), e2.id := OpenedBy(e2)])
  {
    assert parts[0].from <= 1 < parts[0].to && parts[0].from <= 2 < parts[0].to;
    var db1 := Step(parts, EMPTY, d1).0;
    assert db1 == Db(map[KeyOf(d1.ev) := RowOf(d1.ev)], map[d1.ev.id := OpenedBy(d1.ev)]);
    assert [d1, d2][1..] == [d2] && [d2][1..] == [];
    assert After(parts, EMPTY, [d1, d2]) == After(parts, db1, [d2]) == Step(parts, db1, d2).0;
  }

  /** Two joins under one SID, both closed by one participant_left. */
  lemma TwoJoinsOneLeft()
    ensures
      var parts := [Partition(0, 10)];
      var ds := [SampleDelivery([1], PARTICIPANT_JOINED, 1, [4]), SampleDelivery([2], PARTICIPANT_JOINED, 2, [4])];
      Step(parts, After(parts, EMPTY, ds), SampleDelivery([3], PARTICIPANT_LEFT, 3, [4])).1 ==
      Ok(Result(true, false, 2, false))
  {
    var parts := [Partition(0, 10)];
    var d1, d2 := SampleDelivery([1], PARTICIPANT_JOINED, 1, [4]), SampleDelivery([2], PARTICIPANT_JOINED, 2, [4]);
    assert [1][0] != [2][0];
    TwoJoinsOpen(parts, d1, d2);
    assert parts[0].from <= 3 < parts[0].to;
    var joins := After(parts, EMPTY, [d1, d2]).joins;
    assert SidTarget(joins, Sample([3], PARTICIPANT_LEFT, 3, [4])) == {d1.ev.id, d2.ev.id};
  }

  /** A left without a SID closes the latest of two open joins of its identity. */
  lemma LeftClosesLatest(joins: map<Id, Join>, first: Id, last: Id, ev: Event)
    requires joins.Keys == {first, last} && ev.eventType == PARTICIPANT_LEFT && ev.sid == []
    requires IdentityMatch(joins[last], ev) && joins[last].startedAt <= ev.occurredAt
    requires first != last && IdentityMatch(joins[first], ev) ==> joins[first].startedAt < joins[last].startedAt
    ensures JoinEffect(joins, ev, []) ==
            Applied(CloseRows(joins, {last}, ev, EndParticipantLeft), Result(true, false, 1, false))
  {
    var ids := IdentityTarget(joins, ev);
    assert Latest(joins, ids) == {last};
    assert LeftTarget(joins, ev, []) == {last};
  }

  /** Two joins of one identity, both closed by one event id that is delivered with two times. */
  lemma OneIdTwoLefts()
    ensures
      var parts := [Partition(0, 10)];
      var ds := [SampleDelivery([1], PARTICIPANT_JOINED, 1, []), SampleDelivery([2], PARTICIPANT_JOINED, 2, [])];
      var first := Step(parts, After(parts, EMPTY, ds), SampleDelivery([9], PARTICIPANT_LEFT, 5, []));
      var second := Step(parts, first.0, SampleDelivery([9], PARTICIPANT_LEFT, 6, []));
      first.1 == second.1 == Ok(Result(true, false, 1, false))
  {
    var parts := [Partition(0, 10)];
    var d1, d2 := SampleDelivery([1], PARTICIPANT_JOINED, 1, []), SampleDelivery([2], PARTICIPANT_JOINED, 2, []);
    var l1, l2 := Sample([9], PARTICIPANT_LEFT, 5, []), Sample([9], PARTICIPANT_LEFT, 6, []);
    assert [1][0] != [2][0];
    TwoJoinsOpen(parts, d1, d2);
    assert parts[0].from <= 5 < parts[0].to && parts[0].from <= 6 < parts[0].to;
    var joins := After(parts, EMPTY, [d1, d2]).joins;
    assert joins.Keys == {d1.ev.id, d2.ev.id};
    LeftClosesLatest(joins, d1.ev.id, d2.ev.id, l1);
    var rest := CloseRows(joins, {d2.ev.id}, l1, EndParticipantLeft);
    assert rest.Keys == {d2.ev.id, d1.ev.id};
    LeftClosesLatest(rest, d2.ev.id, d1.ev.id, l2);
  }
}

/** What every run of RecordEvent keeps. */
module StoreInvariants {
  import opened Domain
  import opened JoinStore

  // ---- provenance ----

  /** The start of a join is the key of a stored participant_joined in the same room for the same identity. */
  ghost predicate StartObserved(events: map<Key, EventRow>, id: Id, j: Join) {
    var key := Key(j.startedAt, id);
    && key in events
    && events[key].eventType == PARTICIPANT_JOINED
    && events[key].backend == j.backend
    && events[key].roomName == Nullable(j.roomName)
    && events[key].identity == Nullable(j.identity)
    && events[key].roomSid == j.roomSid
    && events[key].sid == j.sid
  }

  /** The end of a join, if any, is the key of a stored closing event that could have closed it. */
  ghost predicate EndObserved(events: map<Key, EventRow>, j: Join) {
    if j.endedAt.None? then
      j.endReason.None? && j.endedEventId.None?
    else
      && j.endReason.Some? && j.endedEventId.Some?
      && j.startedAt <= j.endedAt.value
      && var key := Key(j.endedAt.value, j.endedEventId.value);
      && key in events
      && events[key].backend == j.backend
      && events[key].roomName == Nullable(j.roomName)
      && match j.endReason.value
         case EndParticipantLeft =>
           && events[key].eventType == PARTICIPANT_LEFT
           && ((events[key].sid.Some? && events[key].sid == j.sid) || events[key].identity == Nullable(j.identity))
         case EndRoomFinished => events[key].eventType == ROOM_FINISHED
         case EndInferredTimeout => false
  }

  ghost predicate JoinsObserved(db: Db) {
    forall id :: id in db.joins ==>
      StartObserved(db.events, id, db.joins[id]) && EndObserved(db.events, db.joins[id])
  }

  ghost predicate Provenance(parts: seq<Partition>, db: Db) {
    && (forall key :: key in db.events ==> Covered(parts, key.occurredAt))
    && JoinsObserved(db)
  }

  /** Any row a close selects is open and in the event's room, and agrees with a left on SID or identity. */
  lemma TargetRows(joins: map<Id, Join>, ev: Event, hint: Id)
    ensures forall id :: id in RoomTarget(joins, ev) ==> id in joins && OpenInRoom(joins[id], ev)
    ensures forall id :: id in LeftTarget(joins, ev, hint) ==>
              && id in joins && OpenInRoom(joins[id], ev)
              && ((ev.sid != [] && joins[id].sid == Some(ev.sid)) || joins[id].identity == ev.identity)
  {
  }

  lemma CloseKeepsProvenance(db: Db, target: set<Id>, ev: Event, reason: EndReason)
    requires JoinsObserved(db)
    requires KeyOf(ev) !in db.events && target <= db.joins.Keys && InOrder(db.joins, target, ev)
    requires forall id :: id in target ==> OpenInRoom(db.joins[id], ev)
    requires match reason
             case EndParticipantLeft =>
               && KindOf(ev.eventType).ClosesOne?
               && forall id :: id in target ==>
                    (ev.sid != [] && db.joins[id].sid == Some(ev.sid)) || db.joins[id].identity == ev.identity
             case EndRoomFinished => KindOf(ev.eventType).ClosesRoom?
             case EndInferredTimeout => false
    ensures JoinsObserved(Db(db.events[KeyOf(ev) := RowOf(ev)], CloseRows(db.joins, target, ev, reason)))
  {
  }

  lemma OpenKeepsProvenance(db: Db, ev: Event)
    requires JoinsObserved(db)
    requires KeyOf(ev) !in db.events
    ensures
      var events := db.events[KeyOf(ev) := RowOf(ev)];
      && JoinsObserved(Db(events, db.joins))
      && (KindOf(ev.eventType).Opens? ==> JoinsObserved(Db(events, db.joins[ev.id := OpenedBy(ev)])))
  {
  }

  lemma ProvenanceStep(parts: seq<Partition>, db: Db, d: Delivery)
    requires Provenance(parts, db)
    ensures Provenance(parts, Step(parts, db, d).0)
  {
    StoringStep(parts, db, d);
    if Stores(parts, db, d) {
      TargetRows(db.joins, d.ev, d.hint);
      match KindOf(d.ev.eventType)
      case ClosesOne => CloseKeepsProvenance(db, LeftTarget(db.joins, d.ev, d.hint), d.ev, EndParticipantLeft);
      case ClosesRoom => CloseKeepsProvenance(db, RoomTarget(db.joins, d.ev), d.ev, EndRoomFinished);
      case _ => OpenKeepsProvenance(db, d.ev);
    }
  }

  lemma {:induction false} ProvenanceHolds(parts: seq<Partition>, db: Db, ds: seq<Delivery>)
    requires Provenance(parts, db)
    ensures Provenance(parts, After(parts, db, ds))
    decreases ds
  {
    if |ds| == 0 {
    } else {
      ProvenanceStep(parts, db, ds[0]);
      ProvenanceHolds(parts, Step(parts, db, ds[0]).0, ds[1..]);
    }
  }

  /** From empty tables, with any deliveries, ties and failures. */
  lemma EveryRunHasProvenance(parts: seq<Partition>, ds: seq<Delivery>)
    ensures Provenance(parts, After(parts, EMPTY, ds))
  {
    ProvenanceHolds(parts, EMPTY, ds);
  }

  // ---- write-once history ----

  /** `later` keeps every event row and join row of `earlier`; a row may only go from open to closed. */
  ghost predicate Extends(earlier: Db, later: Db) {
    && (forall key :: key in earlier.events ==> key in later.events && later.events[key] == earlier.events[key])
    && (forall id :: id in earlier.joins ==>
          && id in later.joins
          && var was, now := earlier.joins[id], later.joins[id];
          && now == was.(endedAt := now.endedAt, endReason := now.endReason, endedEventId := now.endedEventId)
          && (!was.IsOpen() ==> now == was))
  }

  lemma ExtendsStep(parts: seq<Partition>, db: Db, d: Delivery)
    ensures Extends(db, Step(parts, db, d).0)
  {
    StoringStep(parts, db, d);
    TargetRows(db.joins, d.ev, d.hint);
  }

  lemma {:induction false} WriteOnceHistory(parts: seq<Partition>, db: Db, ds: seq<Delivery>)
    ensures Extends(db, After(parts, db, ds))
    decreases ds
  {
    if |ds| == 0 {
    } else {
      ExtendsStep(parts, db, ds[0]);
      WriteOnceHistory(parts, Step(parts, db, ds[0]).0, ds[1..]);
    }
  }

  // ---- nothing invented, nothing lost ----

  function TextOf(s: Option<Text>): Text { if s.Some? then s.value else [] }

  /** The event a row was stored for. */
  function EventOf(key: Key, row: EventRow): Event {
    Event(key.id, row.backend, TextOf(row.backendEventId), row.eventType, key.occurredAt, TextOf(row.roomName),
          TextOf(row.roomSid), TextOf(row.identity), TextOf(row.sid), TextOf(row.trackSid), row.payload)
  }

  ghost predicate FromDelivery(ds: seq<Delivery>, ev: Event) {
    exists i :: 0 <= i < |ds| && ds[i].ev == ev
  }

  /** Every row of event_raw is, field for field, an event that was delivered. */
  lemma {:induction false} RowsAreDeliveries(parts: seq<Partition>, ds: seq<Delivery>, key: Key)
    requires key in After(parts, EMPTY, ds).events
    ensures FromDelivery(ds, EventOf(key, After(parts, EMPTY, ds).events[key]))
    decreases |ds|
  {
    if |ds| == 0 {
    } else {
      var n := |ds| - 1;
      var before := After(parts, EMPTY, ds[..n]);
      AfterLast(parts, EMPTY, ds);
      StoringStep(parts, before, ds[n]);
      if key in before.events {
        ExtendsStep(parts, before, ds[n]);
        RowsAreDeliveries(parts, ds[..n], key);
        var i :| 0 <= i < n && ds[..n][i].ev == EventOf(key, before.events[key]);
        assert ds[i] == ds[..n][i];
      } else {
        assert EventOf(key, RowOf(ds[n].ev)) == ds[n].ev;
      }
    }
  }
}

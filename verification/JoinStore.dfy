/** The two tables and one transaction over them, as a function of the delivery
    (internal/ingest/store/postgres/postgres.go, migrations 000001 and 000003). */
module JoinStore {
  import opened Domain

  /** PRIMARY KEY (occurred_at, event_id). */
  datatype Key = Key(occurredAt: Instant, id: Id)

  datatype EventRow = EventRow(
    backend: Text,
    backendEventId: Option<Text>,
    eventType: Text,
    roomName: Option<Text>,
    roomSid: Option<Text>,
    identity: Option<Text>,
    sid: Option<Text>,
    trackSid: Option<Text>,
    payload: seq<Byte>)

  datatype Partition = Partition(from: Instant, to: Instant)

  datatype Db = Db(events: map<Key, EventRow>, joins: map<Id, Join>)

  const EMPTY: Db := Db(map[], map[])

  datatype Result = Result(stored: bool, joinOpened: bool, joinsClosed: nat, closeUnmatched: bool)

  datatype Error = PartitionMissing | CloseOutOfOrder | StoreFailed

  datatype Outcome = Ok(result: Result) | Err(error: Error)

  const DUPLICATE: Outcome := Ok(Result(false, false, 0, false))

  /** Where the database fails for reasons outside the model, if it does. */
  datatype Fault = NoFault | AtBegin | AtInsert | AtEffect | AtCommit

  /** One call of RecordEvent. `hint` resolves ORDER BY started_at DESC LIMIT 1 among ties. */
  datatype Delivery = Delivery(ev: Event, hint: Id, fault: Fault)

  function KeyOf(ev: Event): Key { Key(ev.occurredAt, ev.id) }

  function Nullable(s: Text): Option<Text> { if s == [] then None else Some(s) }

  function RowOf(ev: Event): EventRow {
    EventRow(ev.backend, Nullable(ev.backendEventId), ev.eventType, Nullable(ev.roomName), Nullable(ev.roomSid),
             Nullable(ev.identity), Nullable(ev.sid), Nullable(ev.trackSid), ev.payload)
  }

  function OpenedBy(ev: Event): Join {
    Join(ev.backend, ev.roomName, ev.identity, Nullable(ev.roomSid), Nullable(ev.sid), ev.occurredAt, None, None, None)
  }

  predicate Covered(parts: seq<Partition>, t: Instant) {
    exists i :: 0 <= i < |parts| && parts[i].from <= t < parts[i].to
  }

  // ---- the WHERE clauses ----

  predicate OpenInRoom(j: Join, ev: Event) {
    j.IsOpen() && j.backend == ev.backend && j.roomName == ev.roomName
  }

  function RoomTarget(joins: map<Id, Join>, ev: Event): set<Id> {
    set id | id in joins && OpenInRoom(joins[id], ev)
  }

  function SidTarget(joins: map<Id, Join>, ev: Event): set<Id> {
    set id | id in joins && OpenInRoom(joins[id], ev) && joins[id].sid == Some(ev.sid)
  }

  function IdentityTarget(joins: map<Id, Join>, ev: Event): set<Id> {
    set id | id in joins && OpenInRoom(joins[id], ev) && joins[id].identity == ev.identity
  }

  /** The candidates of ORDER BY started_at DESC LIMIT 1. */
  function Latest(joins: map<Id, Join>, ids: set<Id>): set<Id>
    requires ids <= joins.Keys
  {
    set id | id in ids && forall other :: other in ids ==> joins[other].startedAt <= joins[id].startedAt
  }

  ghost function Pick(hint: Id, candidates: set<Id>): (id: Id)
    requires candidates != {}
    ensures id in candidates
  {
    if hint in candidates then hint else var any :| any in candidates; any
  }

  /** The rows a participant_left closes: by SID when that finds any, else one by identity. */
  ghost function LeftTarget(joins: map<Id, Join>, ev: Event, hint: Id): set<Id> {
    if ev.sid != [] && SidTarget(joins, ev) != {} then
      SidTarget(joins, ev)
    else
      var latest := Latest(joins, IdentityTarget(joins, ev));
      if latest == {} then {} else {Pick(hint, latest)}
  }

  // ---- the UPDATE ----

  function ClosedBy(j: Join, ev: Event, reason: EndReason): Join {
    j.(endedAt := Some(ev.occurredAt), endReason := Some(reason), endedEventId := Some(ev.id))
  }

  function CloseRows(joins: map<Id, Join>, target: set<Id>, ev: Event, reason: EndReason): map<Id, Join> {
    map id | id in joins :: if id in target then ClosedBy(joins[id], ev, reason) else joins[id]
  }

  /** active_range rejects a row whose ended_at precedes its started_at. */
  predicate InOrder(joins: map<Id, Join>, target: set<Id>, ev: Event)
    requires target <= joins.Keys
  {
    forall id :: id in target ==> joins[id].startedAt <= ev.occurredAt
  }

  // ---- one transaction ----

  datatype Effect = Applied(joins: map<Id, Join>, result: Result) | OutOfOrder

  ghost function Close(joins: map<Id, Join>, target: set<Id>, ev: Event, reason: EndReason, unmatched: bool): Effect
    requires target <= joins.Keys
  {
    if InOrder(joins, target, ev)
    then Applied(CloseRows(joins, target, ev, reason), Result(true, false, |target|, unmatched))
    else OutOfOrder
  }

  ghost function JoinEffect(joins: map<Id, Join>, ev: Event, hint: Id): Effect {
    match KindOf(ev.eventType)
    case Opens =>
      if ev.id in joins
      then Applied(joins, Result(true, false, 0, false))
      else Applied(joins[ev.id := OpenedBy(ev)], Result(true, true, 0, false))
    case ClosesOne =>
      var target := LeftTarget(joins, ev, hint);
      Close(joins, target, ev, EndParticipantLeft, target == {})
    case ClosesRoom =>
      Close(joins, RoomTarget(joins, ev), ev, EndRoomFinished, false)
    case NoEffect =>
      Applied(joins, Result(true, false, 0, false))
  }

  ghost function Step(parts: seq<Partition>, db: Db, d: Delivery): (Db, Outcome) {
    if d.fault.AtBegin? || d.fault.AtInsert? then
      (db, Err(StoreFailed))
    else if !Covered(parts, d.ev.occurredAt) then
      (db, Err(PartitionMissing))
    else if KeyOf(d.ev) in db.events then
      (db, if d.fault.AtCommit? then Err(StoreFailed) else DUPLICATE)
    else if d.fault.AtEffect? && !KindOf(d.ev.eventType).NoEffect? then
      (db, Err(StoreFailed))
    else
      match JoinEffect(db.joins, d.ev, d.hint)
      case OutOfOrder => (db, Err(CloseOutOfOrder))
      case Applied(joins, result) =>
        if d.fault.AtCommit? then (db, Err(StoreFailed))
        else (Db(db.events[KeyOf(d.ev) := RowOf(d.ev)], joins), Ok(result))
  }

  ghost predicate Stores(parts: seq<Partition>, db: Db, d: Delivery) {
    var outcome := Step(parts, db, d).1;
    outcome.Ok? && outcome.result.stored
  }

  // ---- runs ----

  ghost function After(parts: seq<Partition>, db: Db, ds: seq<Delivery>): Db
    decreases ds
  {
    if |ds| == 0 then db else After(parts, Step(parts, db, ds[0]).0, ds[1..])
  }

  ghost function Outcomes(parts: seq<Partition>, db: Db, ds: seq<Delivery>): (os: seq<Outcome>)
    ensures |os| == |ds|
    decreases ds
  {
    if |ds| == 0 then []
    else [Step(parts, db, ds[0]).1] + Outcomes(parts, Step(parts, db, ds[0]).0, ds[1..])
  }

  lemma {:induction false} AfterConcat(parts: seq<Partition>, db: Db, before: seq<Delivery>, after: seq<Delivery>)
    ensures After(parts, db, before + after) == After(parts, After(parts, db, before), after)
    decreases before
  {
    if |before| == 0 {
      assert before + after == after;
    } else {
      assert (before + after)[1..] == before[1..] + after;
      AfterConcat(parts, Step(parts, db, before[0]).0, before[1..], after);
    }
  }

  lemma AfterLast(parts: seq<Partition>, db: Db, ds: seq<Delivery>)
    requires |ds| > 0
    ensures After(parts, db, ds) == Step(parts, After(parts, db, ds[..|ds| - 1]), ds[|ds| - 1]).0
  {
    var n := |ds| - 1;
    assert ds == ds[..n] + [ds[n]];
    AfterConcat(parts, db, ds[..n], [ds[n]]);
  }

  /** The outcome at position `i` is that of the step taken there. */
  lemma {:induction false} OutcomeAt(parts: seq<Partition>, db: Db, ds: seq<Delivery>, i: nat)
    requires i < |ds|
    ensures Outcomes(parts, db, ds)[i] == Step(parts, After(parts, db, ds[..i]), ds[i]).1
    decreases ds
  {
    if i == 0 {
    } else {
      assert ds[..i][1..] == ds[1..][..i - 1];
      OutcomeAt(parts, Step(parts, db, ds[0]).0, ds[1..], i - 1);
    }
  }

  lemma OutcomesOfPrefix(parts: seq<Partition>, db: Db, ds: seq<Delivery>, n: nat)
    requires n <= |ds|
    ensures Outcomes(parts, db, ds[..n]) == Outcomes(parts, db, ds)[..n]
  {
    forall i | 0 <= i < n ensures Outcomes(parts, db, ds[..n])[i] == Outcomes(parts, db, ds)[i] {
      OutcomeAt(parts, db, ds, i);
      OutcomeAt(parts, db, ds[..n], i);
      assert ds[..n][..i] == ds[..i];
    }
  }

  /** What a storing step does, in one place: a fresh key, one new row, and the effect's joins. */
  lemma StoringStep(parts: seq<Partition>, db: Db, d: Delivery)
    ensures Stores(parts, db, d) ==>
              && KeyOf(d.ev) !in db.events
              && Covered(parts, d.ev.occurredAt)
              && JoinEffect(db.joins, d.ev, d.hint).Applied?
              && Step(parts, db, d) ==
                 (Db(db.events[KeyOf(d.ev) := RowOf(d.ev)], JoinEffect(db.joins, d.ev, d.hint).joins),
                  Ok(JoinEffect(db.joins, d.ev, d.hint).result))
    ensures !Stores(parts, db, d) ==> Step(parts, db, d).0 == db
  {
  }
}

/** From a request to the rows it leaves, stated on the payload itself: who gets past the gate, what is
    answered, and which columns the two tables gain. */
module Intake {
  import opened CloseTargets
  import opened Domain
  import opened EventId
  import opened JoinStore
  import opened Webhook
  import LiveKit

  // ---- the gate ----

  /** The body was read under the cap and its signature verified. */
  predicate Genuine(req: Request) { req.read.Body? && req.authentic }

  predicate Readable(req: Request) { req.decoded.Some? && req.decoded.value.event != [] }

  /** The delivery reaches the store. */
  predicate Admitted(req: Request) {
    Genuine(req) && Readable(req) && req.decoded.value.event !in LiveKit.REJECTED
  }

  /** What every request is answered before the store is asked, and that nothing but an admitted one can
      change a table; in particular no request whose signature does not verify. */
  lemma GateExactly(s: Setup, db: Db, c: Call)
    ensures
      var response := ResponseTo(FateOf(s, db, c));
      && (response.verified <==> Genuine(c.req))
      && (c.req.read.OverCap? ==> response == Response(413, TooLarge, false))
      && (c.req.read.ReadError? ==> response == Response(400, Malformed, false))
      && (c.req.read.Body? && !c.req.authentic ==> response == Response(401, Unverified, false))
      && (Genuine(c.req) && !Readable(c.req) ==> response == Response(400, Malformed, true))
      && (Genuine(c.req) && Readable(c.req) && !Admitted(c.req) ==> response == Response(200, Ignored, true))
    ensures Admitted(c.req) <==> AdmissionOf(s.env, c.req).Pass?
    ensures !Admitted(c.req) ==> TablesAfter(s, db, c) == db
  {
    if Readable(c.req) {
      LiveKit.OnlyIngestedTypesAct(c.req.decoded.value.event);
    }
  }

  // ---- the answer ----

  /** The key an admitted request is stored under. */
  function KeyFor(env: Platform, p: LiveKit.Payload): Key {
    Key(LiveKit.OccurredAt(p), LiveKit.DeliveryId(env, p, 0))
  }

  /** The event of an admitted request carries the payload, and is stored under its key. */
  lemma AdmittedEvent(s: Setup, req: Request)
    requires Admitted(req)
    ensures AdmissionOf(s.env, req).Pass?
    ensures
      var ev := AdmissionOf(s.env, req).ev;
      && LiveKit.Carries(ev, req.decoded.value, req.read.bytes)
      && JoinStore.KeyOf(ev) == KeyFor(s.env, req.decoded.value)
  {
  }

  /** The database fails the call at a point it reaches. */
  ghost predicate Fails(s: Setup, db: Db, c: Call)
    requires AdmissionOf(s.env, c.req).Pass?
  {
    var ev, fault := AdmissionOf(s.env, c.req).ev, c.req.fault;
    || fault.AtBegin? || fault.AtInsert?
    || (Covered(s.parts, ev.occurredAt) &&
        if JoinStore.KeyOf(ev) in db.events then fault.AtCommit?
        else (fault.AtEffect? && !KindOf(ev.eventType).NoEffect?) ||
             (fault.AtCommit? && !ClosesTooEarly(db.joins, ev)))
  }

  /** The answer to an admitted request, in every case: 500 exactly when the database fails it, and then as
      well as for a lost, repeated or refused event the tables stay as they were. */
  lemma AnswerExactly(s: Setup, db: Db, c: Call)
    requires Admitted(c.req)
    ensures AdmissionOf(s.env, c.req).Pass?
    ensures
      var ev := AdmissionOf(s.env, c.req).ev;
      var response, after := ResponseTo(FateOf(s, db, c)), TablesAfter(s, db, c);
      if Fails(s, db, c) then response == Response(500, StoreFailure, true) && after == db
      else if !Covered(s.parts, ev.occurredAt) then response == Response(200, DataLoss, true) && after == db
      else if JoinStore.KeyOf(ev) in db.events then response == Response(200, Duplicate, true) && after == db
      else response == Response(200, Accepted, true) && (after == db <==> ClosesTooEarly(db.joins, ev))
  {
    AdmittedEvent(s, c.req);
    OutOfOrderExactly(db.joins, AdmissionOf(s.env, c.req).ev, c.hint);
  }

  // ---- the rows ----

  /** The request was stored now. */
  ghost predicate StoredNow(s: Setup, db: Db, c: Call) {
    var f := FateOf(s, db, c);
    f.Recorded? && f.outcome.Ok? && f.outcome.result.stored
  }

  /** A nullable column holds the text, and NULL for the empty text or an absent object. */
  predicate Holds(column: Option<Text>, text: Option<Text>) {
    if text.Some? && text.value != [] then column == text else column == None
  }

  /** An event row, column by column, from the payload. */
  ghost predicate RowCarries(row: EventRow, p: LiveKit.Payload, body: seq<Byte>) {
    var room, participant := p.room, p.participant;
    && row.backend == Ascii("livekit") && row.eventType == p.event && row.payload == body
    && Holds(row.backendEventId, Some(p.id))
    && Holds(row.roomName, if room.Some? then Some(room.value.name) else None)
    && Holds(row.roomSid, if room.Some? then Some(room.value.sid) else None)
    && Holds(row.identity, if participant.Some? then Some(participant.value.identity) else None)
    && Holds(row.sid, if participant.Some? then Some(participant.value.sid) else None)
    && Holds(row.trackSid, p.trackSid)
  }

  /** A stored request adds one event row, under a new key, whose columns are the payload's; every other row
      of event_raw is untouched. */
  lemma EventRowFromPayload(s: Setup, db: Db, c: Call)
    requires StoredNow(s, db, c)
    ensures Admitted(c.req)
    ensures
      var p, after := c.req.decoded.value, TablesAfter(s, db, c);
      var key := KeyFor(s.env, p);
      && key !in db.events && key in after.events
      && after.events == db.events[key := after.events[key]]
      && RowCarries(after.events[key], p, c.req.read.bytes)
  {
    GateExactly(s, db, c);
    AdmittedEvent(s, c.req);
    StoringStep(s.parts, db, Delivery(AdmissionOf(s.env, c.req).ev, c.hint, c.req.fault));
  }

  /** A join row, column by column, from the payload of its participant_joined. */
  ghost predicate JoinCarries(j: Join, p: LiveKit.Payload) {
    var room, participant := p.room, p.participant;
    && j.backend == Ascii("livekit")
    && j.roomName == (if room.Some? then room.value.name else [])
    && j.identity == (if participant.Some? then participant.value.identity else [])
    && Holds(j.roomSid, if room.Some? then Some(room.value.sid) else None)
    && Holds(j.sid, if participant.Some? then Some(participant.value.sid) else None)
    && j.startedAt == LiveKit.OccurredAt(p)
    && j.endedAt == None && j.endReason == None && j.endedEventId == None
  }

  /** A stored participant_joined opens exactly one join, under the delivery's id and with the payload's room,
      identity, SIDs and time, unless that id has opened one before; nothing else happens to the joins. */
  lemma JoinFromPayload(s: Setup, db: Db, c: Call)
    requires StoredNow(s, db, c) && c.req.decoded.Some?
    requires c.req.decoded.value.event == Ascii("participant_joined")
    ensures
      var p, after := c.req.decoded.value, TablesAfter(s, db, c);
      var id := LiveKit.DeliveryId(s.env, p, 0);
      && FateOf(s, db, c).outcome == Ok(Result(true, id !in db.joins, 0, false))
      && id in after.joins
      && (id in db.joins ==> after.joins == db.joins)
      && (id !in db.joins ==> after.joins == db.joins[id := after.joins[id]] && JoinCarries(after.joins[id], p))
      && (id !in db.joins && p.createdAt > 0 ==> after.joins[id].startedAt == p.createdAt * 1_000_000)
  {
    GateExactly(s, db, c);
    AdmittedEvent(s, c.req);
    StoringStep(s.parts, db, Delivery(AdmissionOf(s.env, c.req).ev, c.hint, c.req.fault));
  }

  /** An open join of the payload's room. */
  predicate InRoom(j: Join, p: LiveKit.Payload) {
    && j.endedAt.None? && j.backend == Ascii("livekit")
    && j.roomName == (if p.room.Some? then p.room.value.name else [])
  }

  predicate HasSid(j: Join, p: LiveKit.Payload) {
    InRoom(j, p) && p.participant.Some? && p.participant.value.sid != [] && j.sid == Some(p.participant.value.sid)
  }

  predicate HasIdentity(j: Join, p: LiveKit.Payload) {
    InRoom(j, p) && j.identity == (if p.participant.Some? then p.participant.value.identity else [])
  }

  /** The row as it was, now ended by the delivery. */
  ghost predicate EndedBy(before: Join, after: Join, env: Platform, p: LiveKit.Payload, reason: EndReason) {
    after == before.(endedAt := Some(LiveKit.OccurredAt(p)), endReason := Some(reason),
                     endedEventId := Some(LiveKit.DeliveryId(env, p, 0)))
  }

  lemma MatchesFromPayload(ev: Event, p: LiveKit.Payload, body: seq<Byte>, j: Join)
    requires LiveKit.Carries(ev, p, body)
    ensures OpenInRoom(j, ev) <==> InRoom(j, p)
    ensures SidMatch(j, ev) <==> HasSid(j, p)
    ensures IdentityMatch(j, ev) <==> HasIdentity(j, p)
  {
  }

  /** The joins once a participant_left is stored: every open join of the room with the participant's SID is
      ended; without one the latest of the identity; without either nothing. */
  ghost predicate LeftEnds(env: Platform, p: LiveKit.Payload, before: map<Id, Join>, after: map<Id, Join>) {
    after.Keys == before.Keys &&
    if exists id :: id in before && HasSid(before[id], p) then
      forall id :: id in before ==>
        if HasSid(before[id], p) then EndedBy(before[id], after[id], env, p, EndParticipantLeft)
        else after[id] == before[id]
    else if exists id :: id in before && HasIdentity(before[id], p) then
      exists last ::
        && last in before && HasIdentity(before[last], p)
        && (forall id :: id in before && HasIdentity(before[id], p) ==> before[id].startedAt <= before[last].startedAt)
        && EndedBy(before[last], after[last], env, p, EndParticipantLeft)
        && (forall id :: id in before && id != last ==> after[id] == before[id])
    else after == before
  }

  ghost predicate Unmatched(p: LiveKit.Payload, joins: map<Id, Join>) {
    forall id :: id in joins ==> !HasSid(joins[id], p) && !HasIdentity(joins[id], p)
  }

  lemma LeftAppliedFromPayload(
    env: Platform, p: LiveKit.Payload, body: seq<Byte>, ev: Event, before: map<Id, Join>, after: map<Id, Join>,
    result: Result)
    requires LiveKit.Carries(ev, p, body) && JoinStore.KeyOf(ev) == KeyFor(env, p)
    requires LeftApplied(before, after, ev, result)
    ensures LeftEnds(env, p, before, after) && (result.closeUnmatched <==> Unmatched(p, before))
  {
    forall id | id in before
      ensures SidMatch(before[id], ev) <==> HasSid(before[id], p)
      ensures IdentityMatch(before[id], ev) <==> HasIdentity(before[id], p)
    {
      MatchesFromPayload(ev, p, body, before[id]);
    }
  }

  lemma LeftFromPayload(s: Setup, db: Db, c: Call)
    requires StoredNow(s, db, c) && c.req.decoded.Some?
    requires c.req.decoded.value.event == Ascii("participant_left")
    ensures LeftEnds(s.env, c.req.decoded.value, db.joins, TablesAfter(s, db, c).joins)
    ensures FateOf(s, db, c).outcome.result.closeUnmatched <==> Unmatched(c.req.decoded.value, db.joins)
  {
    GateExactly(s, db, c);
    AdmittedEvent(s, c.req);
    var p, ev := c.req.decoded.value, AdmissionOf(s.env, c.req).ev;
    var d := Delivery(ev, c.hint, c.req.fault);
    ExactLeftTarget(s.parts, db, d);
    LeftAppliedFromPayload(s.env, p, c.req.read.bytes, ev, db.joins, TablesAfter(s, db, c).joins,
                           Step(s.parts, db, d).1.result);
  }

  /** A stored room_finished ends every open join of the payload's room and touches no other. */
  lemma RoomFromPayload(s: Setup, db: Db, c: Call)
    requires StoredNow(s, db, c) && c.req.decoded.Some?
    requires c.req.decoded.value.event == Ascii("room_finished")
    ensures
      var p, after := c.req.decoded.value, TablesAfter(s, db, c).joins;
      && after.Keys == db.joins.Keys
      && forall id :: id in db.joins ==>
           if InRoom(db.joins[id], p) then EndedBy(db.joins[id], after[id], s.env, p, EndRoomFinished)
           else after[id] == db.joins[id]
  {
    GateExactly(s, db, c);
    AdmittedEvent(s, c.req);
    var ev := AdmissionOf(s.env, c.req).ev;
    StoringStep(s.parts, db, Delivery(ev, c.hint, c.req.fault));
  }

  /** No other type touches the joins. */
  lemma OthersLeaveJoins(s: Setup, db: Db, c: Call)
    requires Admitted(c.req)
    requires c.req.decoded.value.event !in
             {Ascii("participant_joined"), Ascii("participant_left"), Ascii("room_finished")}
    ensures TablesAfter(s, db, c).joins == db.joins
  {
    AdmittedEvent(s, c.req);
  }
}

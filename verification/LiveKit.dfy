/** Translating a decoded LiveKit delivery into a canonical event
    (internal/ingest/adapter/livekit/translate.go). */
module LiveKit {
  import opened Domain
  import opened EventId

  datatype Disposition = Ingest | Reject | Store

  datatype Room = Room(sid: Text, name: Text, creationTime: Int64)
  datatype Participant = Participant(sid: Text, identity: Text, joinedAt: Int64)

  /** The fields of the webhook body that are read, after JSON decoding. Times are Unix seconds. */
  datatype Payload = Payload(
    event: Text,
    id: Text,
    createdAt: Int64,
    room: Option<Room>,
    participant: Option<Participant>,
    trackSid: Option<Text>)

  const CANONICAL: set<Text> :=
    {ROOM_STARTED, ROOM_FINISHED, PARTICIPANT_JOINED, PARTICIPANT_LEFT, TRACK_PUBLISHED, TRACK_UNPUBLISHED}

  const REJECTED: set<Text> :=
    {Ascii("egress_started"), Ascii("egress_updated"), Ascii("egress_ended"),
     Ascii("ingress_started"), Ascii("ingress_ended")}

  const SECOND: int := 1_000_000

  /** The zero time.Time, 1 January of year 1. */
  const ZERO_TIME: Instant := -62_135_596_800 * SECOND

  function Classify(event: Text): Disposition {
    if event in CANONICAL then Ingest else if event in REJECTED then Reject else Store
  }

  function OccurredAt(p: Payload): Instant {
    if p.createdAt > 0 then p.createdAt * SECOND
    else if p.participant.Some? && p.participant.value.joinedAt > 0 then p.participant.value.joinedAt * SECOND
    else if p.room.Some? && p.room.value.creationTime > 0 then p.room.value.creationTime * SECOND
    else ZERO_TIME
  }

  datatype Translation = NoEventType | Translated(ev: Event, disposition: Disposition)

  function EmptyEvent(): Event { Event([], [], [], [], ZERO_TIME, [], [], [], [], [], []) }

  /** The id of a delivery: from LiveKit's own event id when there is one. */
  function DeliveryId(env: Platform, p: Payload, ordinal: Int64): Id {
    if p.id != [] then FromBackendEventId(env, LIVEKIT, p.id)
    else FromFields(env, FallbackOf(p, ordinal))
  }

  /** The identity of a delivery without an id of its own. */
  function FallbackOf(p: Payload, ordinal: Int64): Fields {
    Fields(LIVEKIT, p.event, RoomName(p), Identity(p), Sid(p), TrackSid(p), OccurredAt(p), ordinal)
  }

  function RoomName(p: Payload): Text { if p.room.Some? then p.room.value.name else [] }
  function Identity(p: Payload): Text { if p.participant.Some? then p.participant.value.identity else [] }
  function Sid(p: Payload): Text { if p.participant.Some? then p.participant.value.sid else [] }
  function TrackSid(p: Payload): Text { if p.trackSid.Some? then p.trackSid.value else [] }

  /** The event a delivery stands for; the raw body only ends up in the stored payload. */
  function EventFor(env: Platform, p: Payload, body: seq<Byte>, ordinal: Int64): Translation {
    if p.event == [] then NoEventType
    else if Classify(p.event).Reject? then Translated(EmptyEvent().(backend := LIVEKIT, eventType := p.event), Reject)
    else
      Translated(
        Event(DeliveryId(env, p, ordinal), LIVEKIT, p.id, p.event, OccurredAt(p), RoomName(p),
              if p.room.Some? then p.room.value.sid else [], Identity(p), Sid(p), TrackSid(p), body),
        Classify(p.event))
  }

  /** Each field of the event holds what the payload says of it, and an absent object leaves its fields empty. */
  ghost predicate Carries(ev: Event, p: Payload, body: seq<Byte>) {
    && ev.backend == Ascii("livekit") && ev.backendEventId == p.id && ev.eventType == p.event && ev.payload == body
    && (p.room.Some? ==> ev.roomName == p.room.value.name && ev.roomSid == p.room.value.sid)
    && (p.room.None? ==> ev.roomName == [] && ev.roomSid == [])
    && (p.participant.Some? ==> ev.identity == p.participant.value.identity && ev.sid == p.participant.value.sid)
    && (p.participant.None? ==> ev.identity == [] && ev.sid == [])
    && ev.trackSid == (if p.trackSid.Some? then p.trackSid.value else [])
  }

  /** Translate, assigning the event field by field. */
  method Translate(env: Platform, p: Payload, body: seq<Byte>, ordinal: Int64) returns (t: Translation)
    ensures t == EventFor(env, p, body, ordinal)
    ensures t.NoEventType? <==> p.event == []
    ensures t.Translated? && !t.disposition.Reject? ==> Carries(t.ev, p, body)
  {
    if p.event == [] {
      return NoEventType;
    }
    var disposition := Classify(p.event);
    var ev := EmptyEvent().(backend := LIVEKIT);
    if disposition.Reject? {
      return Translated(ev.(eventType := p.event), Reject);
    }
    ev := ev.(backendEventId := p.id, occurredAt := OccurredAt(p), payload := body);
    // A recognised name maps to the canonical constant of the same spelling; an unrecognised one is kept.
    ev := ev.(eventType := p.event);
    if p.room.Some? {
      ev := ev.(roomSid := p.room.value.sid, roomName := p.room.value.name);
    }
    if p.participant.Some? {
      ev := ev.(sid := p.participant.value.sid, identity := p.participant.value.identity);
    }
    if p.trackSid.Some? {
      ev := ev.(trackSid := p.trackSid.value);
    }
    if p.id != [] {
      ev := ev.(id := FromBackendEventId(env, LIVEKIT, p.id));
    } else {
      var fields :=
        Fields(LIVEKIT, ev.eventType, ev.roomName, ev.identity, ev.sid, ev.trackSid, ev.occurredAt, ordinal);
      ev := ev.(id := FromFields(env, fields));
    }
    return Translated(ev, disposition);
  }

  // ---- which deliveries can share an id ----

  /** The id, from the payload: the hash of the scheme, the backend and LiveKit's event id; without one, of the
      scheme, the backend, the type, room, identity, SIDs, time and the ordinal 0. */
  lemma IdFromPayload(env: Platform, p: Payload)
    ensures p.id != [] ==> DeliveryId(env, p, 0) == env.uuid5(Encoding([Ascii("v1"), Ascii("livekit"), p.id]))
    ensures p.id == [] ==>
              var room := if p.room.Some? then p.room.value.name else [];
              var (identity, sid) :=
                if p.participant.Some? then (p.participant.value.identity, p.participant.value.sid) else ([], []);
              var track := if p.trackSid.Some? then p.trackSid.value else [];
              DeliveryId(env, p, 0) ==
              env.uuid5(Encoding([Ascii("v1"), Ascii("livekit"), p.event, room, identity, sid, track,
                                  env.timeText(OccurredAt(p)), [48]]))
  {
  }

  /** The bytes hashed into a delivery's id. */
  function HashInput(env: Platform, p: Payload, ordinal: Int64): seq<Text> {
    if p.id != [] then BackendIdFields(LIVEKIT, p.id)
    else FallbackFields(env, FallbackOf(p, ordinal))
  }

  /** Same identity: the same LiveKit event id, or neither has one and every fallback field agrees. */
  predicate SameIdentity(p: Payload, q: Payload) {
    && p.id == q.id
    && (p.id == [] ==>
          && p.event == q.event && RoomName(p) == RoomName(q) && Identity(p) == Identity(q)
          && Sid(p) == Sid(q) && TrackSid(p) == TrackSid(q) && OccurredAt(p) == OccurredAt(q))
  }

  /** The hash tells the two hash inputs apart if they differ. */
  ghost predicate NoCollision(env: Platform, p: Payload, q: Payload) {
    var a, b := Encoding(HashInput(env, p, 0)), Encoding(HashInput(env, q, 0));
    env.uuid5(a) == env.uuid5(b) ==> a == b
  }

  /** Two deliveries hash the same bytes exactly when they have the same identity; when the hash does
      not collide on them, this is when they get the same id. */
  lemma IdsMatchExactly(env: Platform, p: Payload, q: Payload)
    requires TimeTextInjective(env) && Short(HashInput(env, p, 0)) && Short(HashInput(env, q, 0))
    ensures Encoding(HashInput(env, p, 0)) == Encoding(HashInput(env, q, 0)) <==> SameIdentity(p, q)
    ensures SameIdentity(p, q) ==> DeliveryId(env, p, 0) == DeliveryId(env, q, 0)
    ensures NoCollision(env, p, q) ==> (DeliveryId(env, p, 0) == DeliveryId(env, q, 0) <==> SameIdentity(p, q))
  {
    var a, b := FallbackOf(p, 0), FallbackOf(q, 0);
    if p.id != [] && q.id != [] {
      if Encoding(HashInput(env, p, 0)) == Encoding(HashInput(env, q, 0)) {
        BackendIdSeparates(LIVEKIT, p.id, LIVEKIT, q.id);
      }
    } else if p.id != [] {
      DerivationsDisjoint(env, b, LIVEKIT, p.id);
    } else if q.id != [] {
      DerivationsDisjoint(env, a, LIVEKIT, q.id);
    } else if Encoding(HashInput(env, p, 0)) == Encoding(HashInput(env, q, 0)) {
      FallbackSeparates(env, a, b);
    }
  }

  // ---- scope ----

  /** Scope and effects at the names LiveKit sends. */
  lemma NamesInScope(event: Text)
    ensures Classify(event) == Ingest <==>
            event in {Ascii("room_started"), Ascii("room_finished"), Ascii("participant_joined"),
                      Ascii("participant_left"), Ascii("track_published"), Ascii("track_unpublished")}
    ensures Classify(event) == Reject <==>
            event in {Ascii("egress_started"), Ascii("egress_updated"), Ascii("egress_ended"),
                      Ascii("ingress_started"), Ascii("ingress_ended")}
    ensures KindOf(event) == Opens <==> event == Ascii("participant_joined")
    ensures KindOf(event) == ClosesOne <==> event == Ascii("participant_left")
    ensures KindOf(event) == ClosesRoom <==> event == Ascii("room_finished")
  {
    OnlyIngestedTypesAct(event);
  }

  /** No name is both in scope and rejected, so the order of the tests does not matter; and every type
      that acts on joins is in scope, so a rejected or unrecognised delivery never opens or closes a join. */
  lemma OnlyIngestedTypesAct(event: Text)
    ensures CANONICAL !! REJECTED
    ensures event in CANONICAL <==> Classify(event) == Ingest
    ensures event in REJECTED <==> Classify(event) == Reject
    ensures !KindOf(event).NoEffect? ==> Classify(event) == Ingest
  {
    assert ROOM_STARTED[0] != Ascii("egress_ended")[0];
    assert TRACK_PUBLISHED[0] != Ascii("ingress_started")[0];
    assert ROOM_FINISHED[0] != Ascii("ingress_ended")[0];
  }

  /** The event time comes from the backend's clocks alone: LiveKit's event time decides whenever it is
      there, and the zero time means that no clock was given. */
  lemma TimeIsTheBackends(p: Payload, q: Payload)
    ensures p.createdAt > 0 ==> OccurredAt(p) == p.createdAt * 1_000_000
    ensures p.createdAt <= 0 && p.participant.Some? && p.participant.value.joinedAt > 0 ==>
              OccurredAt(p) == p.participant.value.joinedAt * 1_000_000
    ensures (p.createdAt <= 0 && (p.participant.None? || p.participant.value.joinedAt <= 0) && p.room.Some? &&
             p.room.value.creationTime > 0) ==> OccurredAt(p) == p.room.value.creationTime * 1_000_000
    ensures ZERO_TIME == -62_135_596_800_000_000
    ensures p.createdAt > 0 && q.createdAt > 0 ==> (OccurredAt(p) == OccurredAt(q) <==> p.createdAt == q.createdAt)
    ensures OccurredAt(p) == ZERO_TIME <==>
            && p.createdAt <= 0
            && (p.participant.Some? ==> p.participant.value.joinedAt <= 0)
            && (p.room.Some? ==> p.room.value.creationTime <= 0)
    ensures (p.createdAt <= 0 && q.createdAt <= 0 && p.participant == q.participant && p.participant.Some? &&
             p.participant.value.joinedAt > 0) ==> OccurredAt(p) == OccurredAt(q)
  {
  }
}

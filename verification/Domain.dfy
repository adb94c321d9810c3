/** The canonical vocabulary: events, joins and derived sessions (internal/session/session.go).
    A Go string is a sequence of bytes; an instant is an integer number of microseconds. */
module Domain {

  newtype Byte = x: int | 0 <= x < 256

  type Text = seq<Byte>
  type Id = Text
  type Instant = int

  datatype Option<+T> = None | Some(value: T)

  /** The bytes of a constant. */
  function Ascii(s: string): (t: Text)
    ensures |t| == |s|
  {
    seq(|s|, i requires 0 <= i < |s| => (s[i] as int % 256) as Byte)
  }

  const LIVEKIT: Text := Ascii("livekit")

  const ROOM_STARTED: Text := Ascii("room_started")
  const ROOM_FINISHED: Text := Ascii("room_finished")
  const PARTICIPANT_JOINED: Text := Ascii("participant_joined")
  const PARTICIPANT_LEFT: Text := Ascii("participant_left")
  const TRACK_PUBLISHED: Text := Ascii("track_published")
  const TRACK_UNPUBLISHED: Text := Ascii("track_unpublished")

  datatype EndReason = EndParticipantLeft | EndRoomFinished | EndInferredTimeout

  /** One delivery after translation. The empty text stands for an absent field. */
  datatype Event = Event(
    id: Id,
    backend: Text,
    backendEventId: Text,
    eventType: Text,
    occurredAt: Instant,
    roomName: Text,
    roomSid: Text,
    identity: Text,
    sid: Text,
    trackSid: Text,
    payload: seq<Byte>)

  /** A row of participant_join; the table is keyed by started_event_id. */
  datatype Join = Join(
    backend: Text,
    roomName: Text,
    identity: Text,
    roomSid: Option<Text>,
    sid: Option<Text>,
    startedAt: Instant,
    endedAt: Option<Instant>,
    endReason: Option<EndReason>,
    endedEventId: Option<Id>)
  {
    predicate IsOpen() { endedAt.None? }
  }

  /** A derived view: the joins of one participant in one room under a gap threshold. */
  datatype Session = Session(gap: int, joins: seq<Join>) {
    function StartedAt(): Instant
      requires |joins| > 0
    {
      joins[0].startedAt
    }

    predicate IsOpen()
      requires |joins| > 0
    {
      joins[|joins| - 1].IsOpen()
    }

    function Reconnects(): int { |joins| - 1 }
  }

  /** What an event type does to the join table (postgres.go, applyJoinEffect). */
  datatype Kind = Opens | ClosesOne | ClosesRoom | NoEffect

  function KindOf(eventType: Text): (k: Kind)
    ensures k.Opens? <==> eventType == PARTICIPANT_JOINED
    ensures k.ClosesOne? <==> eventType == PARTICIPANT_LEFT
    ensures k.ClosesRoom? <==> eventType == ROOM_FINISHED
  {
    if eventType == PARTICIPANT_JOINED then Opens
    else if eventType == PARTICIPANT_LEFT then ClosesOne
    else if eventType == ROOM_FINISHED then ClosesRoom
    else NoEffect
  }
}

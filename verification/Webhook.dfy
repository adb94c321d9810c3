/** The receiver (internal/ingest/webhook/handler.go): what each delivery is answered, what it does
    to the tables, and what the counters then say about the tables. */
module Webhook {
  import opened Domain
  import opened EventId
  import opened JoinStore
  import LiveKit
  import PostgresStore

  datatype Verdict =
    | Accepted | Duplicate | Ignored | Unverified | Malformed | TooLarge | DataLoss | StoreFailure

  datatype ReadResult = Body(bytes: seq<Byte>) | OverCap | ReadError

  /** A request, with what the foreign parts make of it: whether the signature verifies and what JSON
      decoding yields. `hint` and `fault` are the database's choices for this call. */
  datatype Request = Request(read: ReadResult, authentic: bool, decoded: Option<LiveKit.Payload>, fault: Fault)

  datatype Call = Call(req: Request, hint: Id)

  datatype Setup = Setup(env: Platform, parts: seq<Partition>)

  /** Counters, labelled ones as multisets of their labels. */
  datatype Counters = Counters(
    requests: multiset<(Verdict, bool)>,
    stored: multiset<Text>,
    duplicates: multiset<Text>,
    rejected: multiset<Text>,
    unrecognised: multiset<Text>,
    partitionMissing: nat,
    joinsOpened: nat,
    joinsClosed: multiset<EndReason>,
    closeUnmatched: nat,
    closeOutOfOrder: nat)

  const NO_COUNTS: Counters :=
    Counters(multiset{}, multiset{}, multiset{}, multiset{}, multiset{}, 0, 0, multiset{}, 0, 0)

  function EndReasonOf(eventType: Text): EndReason {
    if eventType == ROOM_FINISHED then EndRoomFinished else EndParticipantLeft
  }

  function Add<T(==)>(m: multiset<T>, tag: T, n: nat): multiset<T> { m[tag := m[tag] + n] }

  // ---- the handler as a function ----

  /** What a delivery comes to: how far it got, and the store's outcome if it got there. */
  datatype Fate =
    | Stopped(verdict: Verdict, verified: bool)
    | Refused(eventType: Text)
    | Recorded(ev: Event, disposition: LiveKit.Disposition, outcome: Outcome)

  /** How far a request gets before the store is asked. */
  datatype Admission =
    | Stop(verdict: Verdict, verified: bool)
    | Refuse(eventType: Text)
    | Pass(ev: Event, disposition: LiveKit.Disposition)

  function AdmissionOf(env: Platform, req: Request): Admission {
    match req.read
    case OverCap => Stop(TooLarge, false)
    case ReadError => Stop(Malformed, false)
    case Body(bytes) =>
      if !req.authentic then Stop(Unverified, false)
      else if req.decoded.None? then Stop(Malformed, true)
      else
        match LiveKit.EventFor(env, req.decoded.value, bytes, 0)
        case NoEventType => Stop(Malformed, true)
        case Translated(ev, disposition) => if disposition.Reject? then Refuse(ev.eventType) else Pass(ev, disposition)
  }

  ghost function FateOf(s: Setup, db: Db, c: Call): Fate {
    match AdmissionOf(s.env, c.req)
    case Stop(verdict, verified) => Stopped(verdict, verified)
    case Refuse(eventType) => Refused(eventType)
    case Pass(ev, disposition) => Recorded(ev, disposition, Step(s.parts, db, Delivery(ev, c.hint, c.req.fault)).1)
  }

  ghost function TablesAfter(s: Setup, db: Db, c: Call): Db {
    var f := FateOf(s, db, c);
    if f.Recorded? then Step(s.parts, db, Delivery(f.ev, c.hint, c.req.fault)).0 else db
  }

  datatype Response = Response(status: int, verdict: Verdict, verified: bool)

  function ResponseTo(f: Fate): Response {
    match f
    case Stopped(v, verified) =>
      Response(match v case TooLarge => 413 case Unverified => 401 case _ => 400, v, verified)
    case Refused(_) => Response(200, Ignored, true)
    case Recorded(_, _, Err(PartitionMissing)) => Response(200, DataLoss, true)
    case Recorded(_, _, Err(CloseOutOfOrder)) => Response(200, Accepted, true)
    case Recorded(_, _, Err(StoreFailed)) => Response(500, StoreFailure, true)
    case Recorded(_, _, Ok(r)) => Response(200, if r.stored then Accepted else Duplicate, true)
  }

  function CountStored(k: Counters, eventType: Text, r: Result): Counters {
    k.(stored := Add(k.stored, eventType, 1),
       joinsOpened := k.joinsOpened + (if r.joinOpened then 1 else 0),
       joinsClosed := Add(k.joinsClosed, EndReasonOf(eventType), r.joinsClosed),
       closeUnmatched := k.closeUnmatched + (if r.closeUnmatched then 1 else 0))
  }

  function CountOutcome(k: Counters, eventType: Text, outcome: Outcome): Counters {
    match outcome
    case Err(PartitionMissing) => k.(partitionMissing := k.partitionMissing + 1)
    case Err(CloseOutOfOrder) => k.(closeOutOfOrder := k.closeOutOfOrder + 1)
    case Err(StoreFailed) => k
    case Ok(r) =>
      if !r.stored then k.(duplicates := Add(k.duplicates, eventType, 1)) else CountStored(k, eventType, r)
  }

  function CountFate(k: Counters, f: Fate): Counters {
    match f
    case Stopped(_, _) => k
    case Refused(t) => k.(rejected := Add(k.rejected, t, 1))
    case Recorded(ev, disposition, outcome) =>
      CountOutcome(CountSurprise(k, ev.eventType, disposition), ev.eventType, outcome)
  }

  function CountSurprise(k: Counters, eventType: Text, disposition: LiveKit.Disposition): Counters {
    if disposition.Store? then k.(unrecognised := Add(k.unrecognised, eventType, 1)) else k
  }

  function CountRequest(k: Counters, r: Response): Counters {
    k.(requests := Add(k.requests, (r.verdict, r.verified), 1))
  }

  function Count(k: Counters, f: Fate): Counters { CountRequest(CountFate(k, f), ResponseTo(f)) }

  datatype State = State(db: Db, counters: Counters)

  ghost function Serve(s: Setup, st: State, c: Call): State {
    State(TablesAfter(s, st.db, c), Count(st.counters, FateOf(s, st.db, c)))
  }

  ghost function ServeAll(s: Setup, st: State, calls: seq<Call>): State
    decreases calls
  {
    if |calls| == 0 then st else ServeAll(s, Serve(s, st, calls[0]), calls[1..])
  }

  ghost function Responses(s: Setup, db: Db, calls: seq<Call>): (rs: seq<Response>)
    ensures |rs| == |calls|
    decreases calls
  {
    if |calls| == 0 then []
    else [ResponseTo(FateOf(s, db, calls[0]))] + Responses(s, TablesAfter(s, db, calls[0]), calls[1..])
  }

  ghost function TablesAfterAll(s: Setup, db: Db, calls: seq<Call>): Db
    decreases calls
  {
    if |calls| == 0 then db else TablesAfterAll(s, TablesAfter(s, db, calls[0]), calls[1..])
  }

  /** Counters never influence the tables. */
  lemma {:induction false} TablesIgnoreCounters(s: Setup, st: State, calls: seq<Call>)
    ensures ServeAll(s, st, calls).db == TablesAfterAll(s, st.db, calls)
    decreases calls
  {
    if |calls| == 0 {
    } else {
      TablesIgnoreCounters(s, Serve(s, st, calls[0]), calls[1..]);
    }
  }

  // ---- the handler as the program runs it ----

  class Handler {
    const env: Platform
    const store: PostgresStore.Store
    var counters: Counters

    constructor (env: Platform, store: PostgresStore.Store)
      ensures this.env == env && this.store == store && counters == NO_COUNTS
    {
      this.env, this.store := env, store;
      counters := NO_COUNTS;
    }

    ghost function View(): State
      reads this, store
    {
      State(store.Tables(), counters)
    }

    ghost function Configuration(): Setup {
      Setup(env, store.partitions)
    }

    method Finish(status: int, verdict: Verdict, verified: bool) returns (response: Response)
      modifies this
      ensures response == Response(status, verdict, verified)
      ensures counters == CountRequest(old(counters), response)
    {
      counters := counters.(requests := Add(counters.requests, (verdict, verified), 1));
      response := Response(status, verdict, verified);
    }

    /** The counters of an event that was stored. */
    method CountAccepted(eventType: Text, res: Result)
      modifies this
      ensures counters == CountStored(old(counters), eventType, res)
    {
      counters := counters.(stored := Add(counters.stored, eventType, 1));
      if res.joinOpened {
        counters := counters.(joinsOpened := counters.joinsOpened + 1);
      }
      if res.joinsClosed > 0 {
        counters := counters.(joinsClosed := Add(counters.joinsClosed, EndReasonOf(eventType), res.joinsClosed));
      } else {
        assert Add(counters.joinsClosed, EndReasonOf(eventType), 0) == counters.joinsClosed;
      }
      if res.closeUnmatched {
        counters := counters.(closeUnmatched := counters.closeUnmatched + 1);
      }
    }

    /** The answer to an event the store has dealt with. */
    method Answer(eventType: Text, res: Result, err: Option<Error>) returns (response: Response)
      modifies this
      ensures
        var outcome := if err.None? then Ok(res) else Err(err.value);
        && (forall ev, disposition :: response == ResponseTo(Recorded(ev, disposition, outcome)))
        && counters == CountRequest(CountOutcome(old(counters), eventType, outcome), response)
    {
      match err {
        case Some(PartitionMissing) =>
          counters := counters.(partitionMissing := counters.partitionMissing + 1);
          response := Finish(200, DataLoss, true);
        case Some(CloseOutOfOrder) =>
          counters := counters.(closeOutOfOrder := counters.closeOutOfOrder + 1);
          response := Finish(200, Accepted, true);
        case Some(StoreFailed) =>
          response := Finish(500, StoreFailure, true);
        case None =>
          if !res.stored {
            counters := counters.(duplicates := Add(counters.duplicates, eventType, 1));
            response := Finish(200, Duplicate, true);
          } else {
            CountAccepted(eventType, res);
            response := Finish(200, Accepted, true);
          }
      }
    }

    /** Everything before the store: cap, signature, decoding, scope, in that order. */
    method Admit(req: Request) returns (a: Admission)
      ensures a == AdmissionOf(env, req)
    {
      var verified := false;
      if req.read.OverCap? {
        return Stop(TooLarge, verified);
      }
      if req.read.ReadError? {
        return Stop(Malformed, verified);
      }
      if !req.authentic {
        return Stop(Unverified, verified);
      }
      verified := true;
      if req.decoded.None? {
        return Stop(Malformed, verified);
      }
      var translation := LiveKit.Translate(env, req.decoded.value, req.read.bytes, 0);
      if translation.NoEventType? {
        return Stop(Malformed, verified);
      }
      if translation.disposition.Reject? {
        return Refuse(translation.ev.eventType);
      }
      return Pass(translation.ev, translation.disposition);
    }

    /** Storing an admitted event, and answering it. */
    method Record(ev: Event, disposition: LiveKit.Disposition, fault: Fault)
      returns (response: Response, ghost hint: Id)
      modifies this, store
      ensures
        var (after, outcome) := Step(store.partitions, old(store.Tables()), Delivery(ev, hint, fault));
        && store.Tables() == after
        && response == ResponseTo(Recorded(ev, disposition, outcome))
        && counters == Count(old(counters), Recorded(ev, disposition, outcome))
    {
      if disposition.Store? {
        counters := counters.(unrecognised := Add(counters.unrecognised, ev.eventType, 1));
      }
      var res, err;
      res, err, hint := store.RecordEvent(ev, fault);
      response := Answer(ev.eventType, res, err);
    }

    /** ServeHTTP. */
    method ServeHTTP(req: Request) returns (response: Response, ghost hint: Id)
      modifies this, store
      ensures View() == Serve(Configuration(), old(View()), Call(req, hint))
      ensures response == ResponseTo(FateOf(Configuration(), old(View()).db, Call(req, hint)))
    {
      hint := [];
      var admission := Admit(req);
      match admission {
        case Stop(verdict, verified) =>
          var status := match verdict case TooLarge => 413 case Unverified => 401 case _ => 400;
          response := Finish(status, verdict, verified);
        case Refuse(eventType) =>
          counters := counters.(rejected := Add(counters.rejected, eventType, 1));
          response := Finish(200, Ignored, true);
        case Pass(ev, disposition) =>
          response, hint := Record(ev, disposition, req.fault);
      }
    }
  }
}

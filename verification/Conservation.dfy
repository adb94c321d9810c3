/** The counters agree with the tables after every run of deliveries. */
module Conservation {
  import opened Domain
  import opened JoinStore
  import opened StoreInvariants
  import opened Webhook
  import Intake
  import LiveKit

  function KeysOfType(events: map<Key, EventRow>, t: Text): set<Key> {
    set key | key in events && events[key].eventType == t
  }

  function EndedFor(joins: map<Id, Join>, r: EndReason): set<Id> {
    set id | id in joins && joins[id].endReason == Some(r)
  }

  function OpenRows(joins: map<Id, Join>): set<Id> {
    set id | id in joins && joins[id].IsOpen()
  }

  // ---- what one stored event changes ----

  /** The table side of a stored event: how many rows each count gains. */
  ghost predicate Moves(before: map<Id, Join>, after: map<Id, Join>, eventType: Text, r: Result) {
    && |after| == |before| + (if r.joinOpened then 1 else 0)
    && |OpenRows(after)| + r.joinsClosed == |OpenRows(before)| + (if r.joinOpened then 1 else 0)
    && |EndedFor(after, EndReasonOf(eventType))| == |EndedFor(before, EndReasonOf(eventType))| + r.joinsClosed
    && forall other :: other != EndReasonOf(eventType) ==> EndedFor(after, other) == EndedFor(before, other)
  }

  ghost predicate EndTogether(joins: map<Id, Join>) {
    forall id :: id in joins ==> (joins[id].IsOpen() <==> joins[id].endReason.None?)
  }

  lemma Partitioned<T>(whole: set<T>, part: set<T>, rest: set<T>)
    requires whole == part + rest && part !! rest
    ensures |whole| == |part| + |rest|
  {
  }

  /** Closing moves exactly the target from the open rows to the rows ended for `reason`. */
  lemma CloseSets(joins: map<Id, Join>, target: set<Id>, ev: Event, reason: EndReason, r: EndReason)
    requires EndTogether(joins) && target <= OpenRows(joins)
    ensures
      var after := CloseRows(joins, target, ev, reason);
      && OpenRows(joins) == OpenRows(after) + target && OpenRows(after) !! target
      && EndedFor(after, r) == EndedFor(joins, r) + (if r == reason then target else {})
      && EndedFor(joins, r) !! target
  {
  }

  lemma CloseMoves(joins: map<Id, Join>, target: set<Id>, ev: Event, reason: EndReason)
    requires EndTogether(joins) && target <= OpenRows(joins)
    ensures
      var after := CloseRows(joins, target, ev, reason);
      && |after| == |joins|
      && |OpenRows(after)| + |target| == |OpenRows(joins)|
      && |EndedFor(after, reason)| == |EndedFor(joins, reason)| + |target|
      && forall other :: other != reason ==> EndedFor(after, other) == EndedFor(joins, other)
  {
    var after := CloseRows(joins, target, ev, reason);
    assert after.Keys == joins.Keys;
    forall r ensures EndedFor(after, r) == EndedFor(joins, r) + (if r == reason then target else {}) {
      CloseSets(joins, target, ev, reason, r);
    }
    CloseSets(joins, target, ev, reason, reason);
    Partitioned(OpenRows(joins), OpenRows(after), target);
    Partitioned(EndedFor(after, reason), EndedFor(joins, reason), target);
  }

  lemma OpenSets(joins: map<Id, Join>, ev: Event, r: EndReason)
    requires ev.id !in joins
    ensures
      var after := joins[ev.id := OpenedBy(ev)];
      && OpenRows(after) == OpenRows(joins) + {ev.id} && OpenRows(joins) !! {ev.id}
      && EndedFor(after, r) == EndedFor(joins, r)
  {
  }

  lemma OpenMoves(joins: map<Id, Join>, ev: Event)
    requires ev.id !in joins
    ensures
      var after := joins[ev.id := OpenedBy(ev)];
      && |after| == |joins| + 1
      && |OpenRows(after)| == |OpenRows(joins)| + 1
      && forall r :: EndedFor(after, r) == EndedFor(joins, r)
  {
    var after := joins[ev.id := OpenedBy(ev)];
    assert after.Keys == joins.Keys + {ev.id};
    forall r ensures EndedFor(after, r) == EndedFor(joins, r) { OpenSets(joins, ev, r); }
    OpenSets(joins, ev, EndParticipantLeft);
    Partitioned(OpenRows(after), OpenRows(joins), {ev.id});
  }

  lemma EffectMoves(joins: map<Id, Join>, ev: Event, hint: Id)
    requires EndTogether(joins) && JoinEffect(joins, ev, hint).Applied?
    ensures Moves(joins, JoinEffect(joins, ev, hint).joins, ev.eventType, JoinEffect(joins, ev, hint).result)
  {
    TargetRows(joins, ev, hint);
    match KindOf(ev.eventType) {
      case Opens => if ev.id !in joins { OpenMoves(joins, ev); }
      case ClosesOne => CloseMoves(joins, LeftTarget(joins, ev, hint), ev, EndParticipantLeft);
      case ClosesRoom => CloseMoves(joins, RoomTarget(joins, ev), ev, EndRoomFinished);
      case NoEffect =>
    }
  }

  lemma StoreSets(events: map<Key, EventRow>, key: Key, row: EventRow, t: Text)
    requires key !in events
    ensures KeysOfType(events[key := row], t) == KeysOfType(events, t) + (if t == row.eventType then {key} else {})
    ensures key !in KeysOfType(events, t)
  {
  }

  lemma StoreMoves(events: map<Key, EventRow>, key: Key, row: EventRow)
    requires key !in events
    ensures
      var after := events[key := row];
      && |after| == |events| + 1
      && |KeysOfType(after, row.eventType)| == |KeysOfType(events, row.eventType)| + 1
      && forall t :: t != row.eventType ==> KeysOfType(after, t) == KeysOfType(events, t)
  {
    var after := events[key := row];
    assert after.Keys == events.Keys + {key};
    forall t ensures KeysOfType(after, t) == KeysOfType(events, t) + (if t == row.eventType then {key} else {}) {
      StoreSets(events, key, row, t);
    }
    StoreSets(events, key, row, row.eventType);
  }

  // ---- lefts ----

  predicate EndedAsLeft(j: Join) {
    j.endReason == Some(EndParticipantLeft) && j.endedAt.Some? && j.endedEventId.Some?
  }

  /** The events that ended some join as a participant's own departure. */
  function LeftKeys(joins: map<Id, Join>): set<Key> {
    set id |
      id in joins && EndedAsLeft(joins[id])
      :: Key(joins[id].endedAt.value, joins[id].endedEventId.value)
  }

  lemma LeftKeysStored(parts: seq<Partition>, db: Db)
    requires Provenance(parts, db)
    ensures LeftKeys(db.joins) <= db.events.Keys
  {
  }

  lemma CloseLeftKeys(joins: map<Id, Join>, target: set<Id>, ev: Event, reason: EndReason)
    requires EndTogether(joins) && target <= OpenRows(joins)
    ensures LeftKeys(CloseRows(joins, target, ev, reason)) ==
            LeftKeys(joins) + (if reason.EndParticipantLeft? && target != {} then {KeyOf(ev)} else {})
  {
    var after := CloseRows(joins, target, ev, reason);
    var added: set<Key> := if reason.EndParticipantLeft? && target != {} then {KeyOf(ev)} else {};
    forall key | key in LeftKeys(joins) + added ensures key in LeftKeys(after) {
      if key in LeftKeys(joins) {
        var id :| id in joins && EndedAsLeft(joins[id])
                  && Key(joins[id].endedAt.value, joins[id].endedEventId.value) == key;
        assert after[id] == joins[id];
      } else {
        var id :| id in target;
        assert after[id] == ClosedBy(joins[id], ev, reason);
      }
    }
  }

  lemma OpenLeftKeys(joins: map<Id, Join>, ev: Event)
    requires ev.id !in joins
    ensures LeftKeys(joins[ev.id := OpenedBy(ev)]) == LeftKeys(joins)
  {
    var after := joins[ev.id := OpenedBy(ev)];
    forall key | key in LeftKeys(joins) ensures key in LeftKeys(after) {
      var id :| id in joins && EndedAsLeft(joins[id])
                  && Key(joins[id].endedAt.value, joins[id].endedEventId.value) == key;
      assert after[id] == joins[id];
    }
  }

  /** A stored left either ends a join, and becomes an ending event, or is counted as unmatched. */
  lemma EffectLeftKeys(joins: map<Id, Join>, ev: Event, hint: Id)
    requires EndTogether(joins) && JoinEffect(joins, ev, hint).Applied?
    ensures
      var effect := JoinEffect(joins, ev, hint);
      LeftKeys(effect.joins) ==
      LeftKeys(joins) + (if ev.eventType == PARTICIPANT_LEFT && !effect.result.closeUnmatched then {KeyOf(ev)} else {})
    ensures ev.eventType != PARTICIPANT_LEFT ==> !JoinEffect(joins, ev, hint).result.closeUnmatched
  {
    TargetRows(joins, ev, hint);
    match KindOf(ev.eventType) {
      case Opens => if ev.id !in joins { OpenLeftKeys(joins, ev); }
      case ClosesOne => CloseLeftKeys(joins, LeftTarget(joins, ev, hint), ev, EndParticipantLeft);
      case ClosesRoom => CloseLeftKeys(joins, RoomTarget(joins, ev), ev, EndRoomFinished);
      case NoEffect =>
    }
  }

  /** Every stored participant_left ended a join or was counted as unmatched, never both. */
  ghost predicate LeftsCounted(k: Counters, db: Db) {
    k.stored[PARTICIPANT_LEFT] == |LeftKeys(db.joins)| + k.closeUnmatched
  }

  lemma StoredLefts(k: Counters, db: Db, ev: Event, hint: Id, events: map<Key, EventRow>)
    requires LeftsCounted(k, db) && EndTogether(db.joins) && KeyOf(ev) !in LeftKeys(db.joins)
    requires JoinEffect(db.joins, ev, hint).Applied?
    ensures
      var effect := JoinEffect(db.joins, ev, hint);
      LeftsCounted(CountStored(k, ev.eventType, effect.result), Db(events, effect.joins))
  {
    EffectLeftKeys(db.joins, ev, hint);
    AddOne(k.stored, ev.eventType, 1);
  }

  lemma {:induction false} LeftsStep(parts: seq<Partition>, k: Counters, db: Db, d: Delivery)
    requires LeftsCounted(k, db) && Provenance(parts, db)
    ensures LeftsCounted(CountOutcome(k, d.ev.eventType, Step(parts, db, d).1), Step(parts, db, d).0)
  {
    StoringStep(parts, db, d);
    if Stores(parts, db, d) {
      EndsTogether(parts, db);
      LeftKeysStored(parts, db);
      StoredLefts(k, db, d.ev, d.hint, Step(parts, db, d).0.events);
    }
  }

  lemma EndsTogether(parts: seq<Partition>, db: Db)
    requires Provenance(parts, db)
    ensures EndTogether(db.joins)
  {
  }

  // ---- the invariant ----

  ghost predicate TablesCounted(k: Counters, db: Db) {
    && |k.stored| == |db.events|
    && (forall t :: k.stored[t] == |KeysOfType(db.events, t)|)
    && k.joinsOpened == |db.joins|
    && (forall r :: k.joinsClosed[r] == |EndedFor(db.joins, r)|)
    && k.joinsOpened == |k.joinsClosed| + |OpenRows(db.joins)|
  }

  ghost predicate RequestsCounted(k: Counters, calls: nat) {
    && |k.requests| == calls
    && k.requests[(Accepted, true)] == |k.stored| + k.closeOutOfOrder
    && k.requests[(Duplicate, true)] == |k.duplicates|
    && k.requests[(Ignored, true)] == |k.rejected|
    && k.requests[(DataLoss, true)] == k.partitionMissing
    && (forall v :: k.requests[(v, false)] > 0 ==> v in {TooLarge, Malformed, Unverified})
  }

  ghost predicate Conserved(s: Setup, st: State, calls: nat) {
    && Provenance(s.parts, st.db)
    && TablesCounted(st.counters, st.db) && LeftsCounted(st.counters, st.db) && RequestsCounted(st.counters, calls)
  }

  function One(condition: bool): nat { if condition then 1 else 0 }

  /** What one delivery adds to the counters that mirror request outcomes. */
  ghost predicate Tallies(k: Counters, k1: Counters, r: Response) {
    && k1.requests == k.requests
    && |k1.stored| + k1.closeOutOfOrder == |k.stored| + k.closeOutOfOrder + One(r.verdict.Accepted?)
    && |k1.duplicates| == |k.duplicates| + One(r.verdict.Duplicate?)
    && |k1.rejected| == |k.rejected| + One(r.verdict.Ignored?)
    && k1.partitionMissing == k.partitionMissing + One(r.verdict.DataLoss?)
    && (!r.verified ==> r.verdict in {TooLarge, Malformed, Unverified})
  }

  lemma FateTallies(k: Counters, f: Fate)
    requires f.Stopped? ==> f.verdict in {TooLarge, Malformed, Unverified}
    ensures Tallies(k, CountFate(k, f), ResponseTo(f))
  {
    if f.Recorded? {
      AddOne(k.stored, f.ev.eventType, 1);
      AddOne(k.duplicates, f.ev.eventType, 1);
    } else if f.Refused? {
      AddOne(k.rejected, f.eventType, 1);
    }
  }

  lemma RequestsStep(k: Counters, k1: Counters, r: Response, calls: nat)
    requires RequestsCounted(k, calls) && Tallies(k, k1, r)
    requires r.verdict in {Accepted, Duplicate, Ignored, DataLoss} ==> r.verified
    ensures RequestsCounted(CountRequest(k1, r), calls + 1)
  {
  }

  lemma AddOne<T>(m: multiset<T>, tag: T, n: nat)
    ensures |Add(m, tag, n)| == |m| + n
    ensures Add(m, tag, n)[tag] == m[tag] + n
    ensures forall other :: other != tag ==> Add(m, tag, n)[other] == m[other]
  {
  }

  lemma StoppedVerdicts(s: Setup, db: Db, c: Call)
    ensures var f := FateOf(s, db, c); f.Stopped? ==> f.verdict in {TooLarge, Malformed, Unverified}
  {
  }

  lemma StoredCounted(k: Counters, db: Db, ev: Event, hint: Id)
    requires TablesCounted(k, db) && EndTogether(db.joins)
    requires KeyOf(ev) !in db.events && JoinEffect(db.joins, ev, hint).Applied?
    ensures
      var effect := JoinEffect(db.joins, ev, hint);
      TablesCounted(CountStored(k, ev.eventType, effect.result), Db(db.events[KeyOf(ev) := RowOf(ev)], effect.joins))
  {
    EffectMoves(db.joins, ev, hint);
    StoreMoves(db.events, KeyOf(ev), RowOf(ev));
  }

  lemma {:induction false} ConservedStep(s: Setup, st: State, c: Call, calls: nat)
    requires Conserved(s, st, calls)
    ensures Conserved(s, Serve(s, st, c), calls + 1)
  {
    var f := FateOf(s, st.db, c);
    StoppedVerdicts(s, st.db, c);
    FateTallies(st.counters, f);
    RequestsStep(st.counters, CountFate(st.counters, f), ResponseTo(f), calls);
    if f.Recorded? {
      var d := Delivery(f.ev, c.hint, c.req.fault);
      ProvenanceStep(s.parts, st.db, d);
      var k := CountSurprise(st.counters, f.ev.eventType, f.disposition);
      RecordCounted(s.parts, k, st.db, d);
      LeftsStep(s.parts, k, st.db, d);
    }
  }

  lemma {:induction false} RecordCounted(parts: seq<Partition>, k: Counters, db: Db, d: Delivery)
    requires TablesCounted(k, db) && Provenance(parts, db)
    ensures TablesCounted(CountOutcome(k, d.ev.eventType, Step(parts, db, d).1), Step(parts, db, d).0)
  {
    StoringStep(parts, db, d);
    if Stores(parts, db, d) {
      EndsTogether(parts, db);
      StoredCounted(k, db, d.ev, d.hint);
    }
  }

  lemma {:induction false} ConservedRun(s: Setup, st: State, calls: seq<Call>, n: nat)
    requires Conserved(s, st, n)
    ensures Conserved(s, ServeAll(s, st, calls), n + |calls|)
    decreases calls
  {
    if |calls| == 0 {
    } else {
      ConservedStep(s, st, calls[0], n);
      ConservedRun(s, Serve(s, st, calls[0]), calls[1..], n + 1);
    }
  }

  /** From empty tables, any sequence of deliveries leaves every counter equal to what the tables hold. */
  lemma CountersMatchTables(s: Setup, calls: seq<Call>)
    ensures
      var st := ServeAll(s, State(EMPTY, NO_COUNTS), calls);
      TablesCounted(st.counters, st.db) && LeftsCounted(st.counters, st.db) && RequestsCounted(st.counters, |calls|)
  {
    ConservedRun(s, State(EMPTY, NO_COUNTS), calls, 0);
  }

  // ---- labels ----

  /** The labels of requests, and the type names of duplicate, rejected and unrecognised deliveries. */
  datatype Labels = Labels(
    requests: multiset<(Verdict, bool)>,
    duplicates: multiset<Text>,
    rejected: multiset<Text>,
    unrecognised: multiset<Text>)
  {
    function Plus(more: Labels): Labels {
      Labels(requests + more.requests, duplicates + more.duplicates, rejected + more.rejected,
             unrecognised + more.unrecognised)
    }
  }

  const NO_LABELS: Labels := Labels(multiset{}, multiset{}, multiset{}, multiset{})

  function LabelsIn(k: Counters): Labels { Labels(k.requests, k.duplicates, k.rejected, k.unrecognised) }

  function NameIf(condition: bool, c: Call): multiset<Text> {
    if condition && c.req.decoded.Some? then multiset{c.req.decoded.value.event} else multiset{}
  }

  /** What one call and its answer should be counted under. */
  function LabelsOf(c: Call, answer: Response): Labels {
    Labels(multiset{(answer.verdict, answer.verified)},
           NameIf(answer.verdict.Duplicate?, c),
           NameIf(answer.verdict.Ignored?, c),
           NameIf(Intake.Admitted(c.req) && c.req.decoded.value.event !in LiveKit.CANONICAL, c))
  }

  function LabelsOfAll(calls: seq<Call>, answers: seq<Response>): Labels
    requires |calls| == |answers|
  {
    if |calls| == 0 then NO_LABELS else LabelsOf(calls[0], answers[0]).Plus(LabelsOfAll(calls[1..], answers[1..]))
  }

  lemma PlusAssociates(a: Labels, b: Labels, c: Labels)
    ensures a.Plus(b).Plus(c) == a.Plus(b.Plus(c))
    ensures a.Plus(NO_LABELS) == a
  {
  }

  lemma AddIsSum<T>(m: multiset<T>, tag: T)
    ensures Add(m, tag, 1) == m + multiset{tag}
  {
  }

  /** The fate of a call names the type its payload carries. */
  ghost predicate FateNames(c: Call, f: Fate) {
    && (f.Stopped? ==> f.verdict in {TooLarge, Malformed, Unverified})
    && (f.Refused? ==> c.req.decoded.Some? && f.eventType == c.req.decoded.value.event)
    && (f.Recorded? <==> Intake.Admitted(c.req))
    && (f.Recorded? ==>
          && f.ev.eventType == c.req.decoded.value.event
          && (f.disposition.Store? <==> f.ev.eventType !in LiveKit.CANONICAL))
  }

  lemma FatesName(s: Setup, db: Db, c: Call)
    ensures FateNames(c, FateOf(s, db, c))
  {
    StoppedVerdicts(s, db, c);
    Intake.GateExactly(s, db, c);
    if Intake.Readable(c.req) {
      LiveKit.OnlyIngestedTypesAct(c.req.decoded.value.event);
    }
  }

  lemma CountDuplicates(k: Counters, c: Call, f: Fate)
    requires FateNames(c, f)
    ensures Count(k, f).duplicates == k.duplicates + NameIf(ResponseTo(f).verdict.Duplicate?, c)
  {
  }

  lemma CountRejected(k: Counters, c: Call, f: Fate)
    requires FateNames(c, f)
    ensures Count(k, f).rejected == k.rejected + NameIf(ResponseTo(f).verdict.Ignored?, c)
  {
    if f.Refused? {
      AddIsSum(k.rejected, f.eventType);
    }
  }

  lemma CountUnrecognised(k: Counters, c: Call, f: Fate)
    requires FateNames(c, f)
    ensures Count(k, f).unrecognised == k.unrecognised + LabelsOf(c, ResponseTo(f)).unrecognised
  {
    if f.Recorded? {
      AddIsSum(k.unrecognised, f.ev.eventType);
    }
  }

  lemma {:induction false} CountLabels(k: Counters, c: Call, f: Fate)
    requires FateNames(c, f)
    ensures LabelsIn(Count(k, f)) == LabelsIn(k).Plus(LabelsOf(c, ResponseTo(f)))
  {
    AddIsSum(k.requests, (ResponseTo(f).verdict, ResponseTo(f).verified));
    CountDuplicates(k, c, f);
    CountRejected(k, c, f);
    CountUnrecognised(k, c, f);
  }

  /** From any state: every request is counted under its outcome and whether it verified, and duplicates, rejected
      and unrecognised types are counted under the name each payload carried, as often as it came. */
  lemma {:induction false} LabelsMatchAnswers(s: Setup, st: State, calls: seq<Call>)
    ensures LabelsIn(ServeAll(s, st, calls).counters) ==
            LabelsIn(st.counters).Plus(LabelsOfAll(calls, Responses(s, st.db, calls)))
    decreases calls
  {
    var start := LabelsIn(st.counters);
    if |calls| == 0 {
      PlusAssociates(start, start, start);
    } else {
      var next, f := Serve(s, st, calls[0]), FateOf(s, st.db, calls[0]);
      var rest := Responses(s, next.db, calls[1..]);
      assert Responses(s, st.db, calls)[1..] == rest;
      FatesName(s, st.db, calls[0]);
      CountLabels(st.counters, calls[0], f);
      LabelsMatchAnswers(s, next, calls[1..]);
      PlusAssociates(start, LabelsOf(calls[0], ResponseTo(f)), LabelsOfAll(calls[1..], rest));
    }
  }
}

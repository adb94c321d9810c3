/** At-least-once delivery, end to end: a repeated delivery changes nothing but its own answer. */
module Redelivery {
  import opened CloseTargets
  import opened Domain
  import opened EventId
  import opened JoinStore
  import opened StoreInvariants
  import opened Webhook
  import LiveKit

  /** A call that reaches the store with a key the store already has. */
  ghost predicate Repeats(s: Setup, db: Db, c: Call) {
    var a := AdmissionOf(s.env, c.req);
    a.Pass? && KeyOf(a.ev) in db.events
  }

  lemma RepeatStutters(s: Setup, db: Db, c: Call)
    requires Repeats(s, db, c)
    ensures TablesAfter(s, db, c) == db
    ensures c.req.fault.NoFault? && Provenance(s.parts, db) ==>
              ResponseTo(FateOf(s, db, c)) == Response(200, Duplicate, true)
  {
  }

  // ---- erasing repeats from a run ----

  function Kept<T>(xs: seq<T>, keep: seq<bool>): seq<T>
    requires |xs| == |keep|
  {
    if |xs| == 0 then [] else (if keep[0] then [xs[0]] else []) + Kept(xs[1..], keep[1..])
  }

  /** Every call not kept repeats a key that is stored when it arrives. */
  ghost predicate ErasedRepeat(s: Setup, db: Db, calls: seq<Call>, keep: seq<bool>)
    requires |calls| == |keep|
    decreases calls
  {
    |calls| == 0 ||
    ((keep[0] || Repeats(s, db, calls[0])) && ErasedRepeat(s, TablesAfter(s, db, calls[0]), calls[1..], keep[1..]))
  }

  /** Any set of repeats can be taken out of any run, at any points, without changing a table or the
      answer to any other delivery. */
  lemma {:induction false} RepeatsAreInvisible(s: Setup, db: Db, calls: seq<Call>, keep: seq<bool>)
    requires |calls| == |keep| && ErasedRepeat(s, db, calls, keep)
    ensures TablesAfterAll(s, db, Kept(calls, keep)) == TablesAfterAll(s, db, calls)
    ensures Responses(s, db, Kept(calls, keep)) == Kept(Responses(s, db, calls), keep)
    decreases calls
  {
    if |calls| == 0 {
    } else {
      var next := TablesAfter(s, db, calls[0]);
      RepeatsAreInvisible(s, next, calls[1..], keep[1..]);
      assert Responses(s, db, calls)[1..] == Responses(s, next, calls[1..]);
      if keep[0] {
        assert Kept(calls, keep)[1..] == Kept(calls[1..], keep[1..]);
      } else {
        RepeatStutters(s, db, calls[0]);
        assert Kept(calls, keep) == Kept(calls[1..], keep[1..]);
        assert Kept(Responses(s, db, calls), keep) == Kept(Responses(s, next, calls[1..]), keep[1..]);
      }
    }
  }

  // ---- what makes a call a repeat ----

  lemma TablesGrowByOne(s: Setup, db: Db, c: Call)
    ensures Extends(db, TablesAfter(s, db, c))
  {
    var f := FateOf(s, db, c);
    if f.Recorded? {
      ExtendsStep(s.parts, db, Delivery(f.ev, c.hint, c.req.fault));
    }
  }

  lemma {:induction false} TablesOnlyGrow(s: Setup, db: Db, calls: seq<Call>)
    ensures Extends(db, TablesAfterAll(s, db, calls))
    decreases calls
  {
    if |calls| == 0 {
    } else {
      TablesGrowByOne(s, db, calls[0]);
      TablesOnlyGrow(s, TablesAfter(s, db, calls[0]), calls[1..]);
    }
  }

  lemma {:induction false} TablesConcat(s: Setup, db: Db, before: seq<Call>, after: seq<Call>)
    ensures TablesAfterAll(s, db, before + after) == TablesAfterAll(s, TablesAfterAll(s, db, before), after)
    decreases before
  {
    if |before| == 0 {
      assert before + after == after;
    } else {
      assert (before + after)[1..] == before[1..] + after;
      TablesConcat(s, TablesAfter(s, db, before[0]), before[1..], after);
    }
  }

  /** Call `i` of the run reached the store and got an answer without error: stored now or earlier. */
  ghost predicate AnsweredOk(s: Setup, db: Db, calls: seq<Call>, i: int) {
    && 0 <= i < |calls|
    && var f := FateOf(s, TablesAfterAll(s, db, calls[..i]), calls[i]);
    f.Recorded? && f.outcome.Ok?
  }

  /** The key an admitted request is stored under: its id and the backend's time. */
  predicate SameKey(env: Platform, a: Request, b: Request) {
    var x, y := AdmissionOf(env, a), AdmissionOf(env, b);
    x.Pass? && y.Pass? && KeyOf(x.ev) == KeyOf(y.ev)
  }

  /** After call `i` its key is there to stay. */
  lemma AnsweredStays(s: Setup, db: Db, calls: seq<Call>, i: int)
    requires AnsweredOk(s, db, calls, i)
    ensures KeyOf(AdmissionOf(s.env, calls[i].req).ev) in TablesAfterAll(s, db, calls).events
  {
    var before := TablesAfterAll(s, db, calls[..i]);
    var f := FateOf(s, before, calls[i]);
    var next := TablesAfter(s, before, calls[i]);
    StoringStep(s.parts, before, Delivery(f.ev, calls[i].hint, calls[i].req.fault));
    assert KeyOf(f.ev) in next.events;
    TablesOnlyGrow(s, next, calls[i + 1..]);
    assert calls == calls[..i] + calls[i..] && calls[i..][1..] == calls[i + 1..];
    TablesConcat(s, db, calls[..i], calls[i..]);
  }

  /** A key gets into the tables only through a call that was answered without error. */
  lemma {:induction false} KeysComeFromCalls(s: Setup, calls: seq<Call>, key: Key) returns (i: int)
    requires key in TablesAfterAll(s, EMPTY, calls).events
    ensures AnsweredOk(s, EMPTY, calls, i) && KeyOf(AdmissionOf(s.env, calls[i].req).ev) == key
    decreases |calls|
  {
    var n := |calls| - 1;
    var before := TablesAfterAll(s, EMPTY, calls[..n]);
    assert calls == calls[..n] + [calls[n]];
    TablesConcat(s, EMPTY, calls[..n], [calls[n]]);
    if key in before.events {
      i := KeysComeFromCalls(s, calls[..n], key);
      assert calls[..n][..i] == calls[..i];
    } else {
      i := n;
      var f := FateOf(s, before, calls[n]);
      StoringStep(s.parts, before, Delivery(f.ev, calls[n].hint, calls[n].req.fault));
    }
  }

  /** After any calls from empty tables, an admitted request is a repeat if and only if an earlier call with
      its id and its time was answered without error: the same id with another time is no repeat. */
  lemma RepeatsExactly(s: Setup, calls: seq<Call>, again: Call)
    requires AdmissionOf(s.env, again.req).Pass?
    ensures Repeats(s, TablesAfterAll(s, EMPTY, calls), again) <==>
            exists i :: AnsweredOk(s, EMPTY, calls, i) && SameKey(s.env, calls[i].req, again.req)
  {
    var db := TablesAfterAll(s, EMPTY, calls);
    if Repeats(s, db, again) {
      var i := KeysComeFromCalls(s, calls, KeyOf(AdmissionOf(s.env, again.req).ev));
      assert SameKey(s.env, calls[i].req, again.req);
    }
    if i :| AnsweredOk(s, EMPTY, calls, i) && SameKey(s.env, calls[i].req, again.req) {
      AnsweredStays(s, EMPTY, calls, i);
    }
  }

  /** Same identity and time of the decoded bodies, whatever the raw bytes. */
  predicate SameDelivery(a: Request, b: Request) {
    && a.decoded.Some? && b.decoded.Some?
    && LiveKit.SameIdentity(a.decoded.value, b.decoded.value)
    && LiveKit.OccurredAt(a.decoded.value) == LiveKit.OccurredAt(b.decoded.value)
  }

  /** For requests of one identity, sharing the key is sharing the time. */
  lemma SameKeyIffSameTime(env: Platform, a: Request, b: Request)
    requires AdmissionOf(env, a).Pass? && AdmissionOf(env, b).Pass?
    requires LiveKit.SameIdentity(a.decoded.value, b.decoded.value)
    ensures SameKey(env, a, b) <==> SameDelivery(a, b)
  {
  }

  predicate SameId(env: Platform, a: Request, b: Request) {
    var x, y := AdmissionOf(env, a), AdmissionOf(env, b);
    x.Pass? && y.Pass? && x.ev.id == y.ev.id
  }

  /** As long as an identity has come with one time only, a further admitted delivery of it is a repeat if and
      only if it comes with that time. */
  lemma SameIdentityRepeats(s: Setup, calls: seq<Call>, first: int, again: Call)
    requires AnsweredOk(s, EMPTY, calls, first) && AdmissionOf(s.env, again.req).Pass?
    requires LiveKit.SameIdentity(calls[first].req.decoded.value, again.req.decoded.value)
    requires forall i :: AnsweredOk(s, EMPTY, calls, i) && SameId(s.env, calls[i].req, again.req) ==>
               SameKey(s.env, calls[i].req, calls[first].req)
    ensures Repeats(s, TablesAfterAll(s, EMPTY, calls), again) <==>
            LiveKit.OccurredAt(calls[first].req.decoded.value) == LiveKit.OccurredAt(again.req.decoded.value)
  {
    RepeatsExactly(s, calls, again);
    SameKeyIffSameTime(s.env, calls[first].req, again.req);
  }

  /** The hash tells the two requests apart: their fields are short and their hash inputs do not collide. */
  ghost predicate Separable(env: Platform, a: Request, b: Request) {
    && a.decoded.Some? && b.decoded.Some?
    && Short(LiveKit.HashInput(env, a.decoded.value, 0)) && Short(LiveKit.HashInput(env, b.decoded.value, 0))
    && LiveKit.NoCollision(env, a.decoded.value, b.decoded.value)
  }

  lemma SameKeyIffSameDelivery(env: Platform, a: Request, b: Request)
    requires AdmissionOf(env, a).Pass? && AdmissionOf(env, b).Pass?
    requires TimeTextInjective(env) && Separable(env, a, b)
    ensures SameKey(env, a, b) <==> SameDelivery(a, b)
  {
    LiveKit.IdsMatchExactly(env, a.decoded.value, b.decoded.value);
  }

  /** After any calls from empty tables that the hash tells apart from this one: an admitted request is taken for
      a repeat if and only if an earlier call of its identity and its time was answered without error. */
  lemma OnlyRedeliveriesRepeat(s: Setup, calls: seq<Call>, again: Call)
    requires AdmissionOf(s.env, again.req).Pass? && TimeTextInjective(s.env)
    requires forall i :: AnsweredOk(s, EMPTY, calls, i) ==> Separable(s.env, calls[i].req, again.req)
    ensures Repeats(s, TablesAfterAll(s, EMPTY, calls), again) <==>
            exists i :: AnsweredOk(s, EMPTY, calls, i) && SameDelivery(calls[i].req, again.req)
  {
    RepeatsExactly(s, calls, again);
    forall i | AnsweredOk(s, EMPTY, calls, i)
      ensures SameKey(s.env, calls[i].req, again.req) <==> SameDelivery(calls[i].req, again.req)
    {
      SameKeyIffSameDelivery(s.env, calls[i].req, again.req);
    }
  }

  // ---- the two together ----

  lemma {:induction false} EarlierCallsErase(s: Setup, db: Db, calls: seq<Call>, keep: seq<bool>)
    requires |calls| == |keep|
    requires forall j {:trigger keep[j]} :: 0 <= j < |calls| && !keep[j] ==>
               Repeats(s, TablesAfterAll(s, db, calls[..j]), calls[j])
    ensures ErasedRepeat(s, db, calls, keep)
    decreases calls
  {
    if |calls| == 0 {
    } else {
      var next := TablesAfter(s, db, calls[0]);
      assert calls[..0] == [];
      forall j | 0 <= j < |calls| - 1 && !keep[1..][j]
        ensures Repeats(s, TablesAfterAll(s, next, calls[1..][..j]), calls[1..][j])
      {
        assert !keep[j + 1];
        assert calls[..j + 1][1..] == calls[1..][..j];
      }
      EarlierCallsErase(s, next, calls[1..], keep[1..]);
    }
  }

  /** An admitted call that an earlier call, answered without error, already delivered. */
  ghost predicate Redelivered(s: Setup, db: Db, calls: seq<Call>, j: int) {
    && 0 <= j < |calls| && AdmissionOf(s.env, calls[j].req).Pass?
    && exists i :: i < j && AnsweredOk(s, db, calls, i) && SameDelivery(calls[i].req, calls[j].req)
  }

  /** From any state of the receiver: take out any set of calls each of which redelivers an earlier one. The
      tables at the end and the answer to every other call stay the same. */
  lemma {:induction false} RedeliveriesAreInvisible(s: Setup, st: State, calls: seq<Call>, keep: seq<bool>)
    requires |calls| == |keep|
    requires forall j {:trigger keep[j]} :: 0 <= j < |calls| && !keep[j] ==> Redelivered(s, st.db, calls, j)
    ensures ServeAll(s, st, Kept(calls, keep)).db == ServeAll(s, st, calls).db
    ensures Responses(s, st.db, Kept(calls, keep)) == Kept(Responses(s, st.db, calls), keep)
  {
    forall j {:trigger keep[j]} | 0 <= j < |calls| && !keep[j]
      ensures Repeats(s, TablesAfterAll(s, st.db, calls[..j]), calls[j])
    {
      RedeliveredRepeats(s, st.db, calls, j);
    }
    EarlierCallsErase(s, st.db, calls, keep);
    RepeatsAreInvisible(s, st.db, calls, keep);
    TablesIgnoreCounters(s, st, calls);
    TablesIgnoreCounters(s, st, Kept(calls, keep));
  }

  lemma RedeliveredRepeats(s: Setup, db: Db, calls: seq<Call>, j: int)
    requires Redelivered(s, db, calls, j)
    ensures Repeats(s, TablesAfterAll(s, db, calls[..j]), calls[j])
  {
    var i :| i < j && AnsweredOk(s, db, calls, i) && SameDelivery(calls[i].req, calls[j].req);
    assert calls[..j][..i] == calls[..i];
    AnsweredStays(s, db, calls[..j], i);
    SameKeyIffSameTime(s.env, calls[i].req, calls[j].req);
  }

  // ---- what an acknowledgement promises ----

  /** An admitted delivery that meets no failure is answered 200. Whenever an admitted delivery is answered
      200, its event is in event_raw afterwards if and only if it was there before, or a partition covers its
      time and no row its close would select started later. */
  lemma AcknowledgedIffStored(s: Setup, db: Db, c: Call)
    requires AdmissionOf(s.env, c.req).Pass?
    ensures c.req.fault.NoFault? ==> ResponseTo(FateOf(s, db, c)).status == 200
    ensures ResponseTo(FateOf(s, db, c)).status == 200 ==>
              var ev := AdmissionOf(s.env, c.req).ev;
              && (KeyOf(ev) in TablesAfter(s, db, c).events <==>
                    KeyOf(ev) in db.events || (Covered(s.parts, ev.occurredAt) && !ClosesTooEarly(db.joins, ev)))
              && (ResponseTo(FateOf(s, db, c)).verdict.DataLoss? <==> !Covered(s.parts, ev.occurredAt))
  {
    var ev := AdmissionOf(s.env, c.req).ev;
    StoringStep(s.parts, db, Delivery(ev, c.hint, c.req.fault));
    OutOfOrderExactly(db.joins, ev, c.hint);
  }

  function SampleCall(event: Text, createdAt: Int64): Call {
    var room, participant := LiveKit.Room([1], [2], 0), LiveKit.Participant([3], [4], 0);
    var payload := LiveKit.Payload(event, event, createdAt, Some(room), Some(participant), None);
    Call(Request(Body([]), true, Some(payload), NoFault), [])
  }

  /** A run from empty tables, for any hash: a participant leaves, by a skewed clock, before joining. The left
      is answered 200 accepted and is nowhere in the tables. */
  lemma AcknowledgedAndLost(env: Platform)
    ensures
      var s := Setup(env, [Partition(0, 10 * LiveKit.SECOND)]);
      var joined, left := SampleCall(PARTICIPANT_JOINED, 5), SampleCall(PARTICIPANT_LEFT, 3);
      var db := TablesAfterAll(s, EMPTY, [joined]);
      && AdmissionOf(env, left.req).Pass?
      && ResponseTo(FateOf(s, db, left)) == Response(200, Accepted, true)
      && TablesAfter(s, db, left) == db
      && KeyOf(AdmissionOf(env, left.req).ev) !in db.events
  {
    var s := Setup(env, [Partition(0, 10 * LiveKit.SECOND)]);
    var joined, left := SampleCall(PARTICIPANT_JOINED, 5), SampleCall(PARTICIPANT_LEFT, 3);
    LiveKit.OnlyIngestedTypesAct(PARTICIPANT_JOINED);
    LiveKit.OnlyIngestedTypesAct(PARTICIPANT_LEFT);
    var j, l := AdmissionOf(env, joined.req).ev, AdmissionOf(env, left.req).ev;
    assert s.parts[0].from <= j.occurredAt < s.parts[0].to && s.parts[0].from <= l.occurredAt < s.parts[0].to;
    var db := TablesAfter(s, EMPTY, joined);
    assert db == Db(map[KeyOf(j) := RowOf(j)], map[j.id := OpenedBy(j)]);
    assert [joined][1..] == [] && TablesAfterAll(s, EMPTY, [joined]) == db;
    assert SidMatch(db.joins[j.id], l) && StartedLater(db.joins, j.id, l);
    OutOfOrderExactly(db.joins, l, []);
  }
}

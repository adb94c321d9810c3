/** When the order of deliveries does not matter, and that it matters in every other order. */
module Confluence {
  import opened Domain
  import opened JoinStore
  import opened StoreInvariants

  /** An event without its body bytes, which a redelivery need not repeat. */
  function Core(ev: Event): Event { ev.(payload := []) }

  predicate Opening(e: Event) { KindOf(e.eventType).Opens? }
  predicate Closing(e: Event) { KindOf(e.eventType).ClosesOne? }

  predicate SameSlot(e: Event, f: Event) {
    e.backend == f.backend && e.roomName == f.roomName && e.sid == f.sid
  }

  ghost predicate HasJoin(scenario: set<Event>, l: Event) {
    exists j :: j in scenario && Opening(j) && SameSlot(j, l) && j.occurredAt <= l.occurredAt
  }

  ghost predicate DistinctIds(scenario: set<Event>) {
    forall e, f :: e in scenario && f in scenario && e.id == f.id ==> e == f
  }

  ghost predicate OneJoinPerSlot(scenario: set<Event>) {
    forall e, f :: e in scenario && f in scenario && Opening(e) && Opening(f) && SameSlot(e, f) ==> e == f
  }

  ghost predicate OneLeftPerSlot(scenario: set<Event>) {
    forall e, f :: e in scenario && f in scenario && Closing(e) && Closing(f) && SameSlot(e, f) ==> e == f
  }

  ghost predicate SidsPresent(scenario: set<Event>) {
    forall e :: e in scenario && (Opening(e) || Closing(e)) ==> e.sid != []
  }

  /** Joined and left events with distinct ids, one join and at most one later left per (room, SID);
      events without a join effect may be mixed in, room_finished may not. */
  ghost predicate Scenario(parts: seq<Partition>, scenario: set<Event>) {
    && (forall e :: e in scenario ==> Covered(parts, e.occurredAt) && !KindOf(e.eventType).ClosesRoom?)
    && DistinctIds(scenario) && OneJoinPerSlot(scenario) && OneLeftPerSlot(scenario) && SidsPresent(scenario)
    && (forall l {:trigger HasJoin(scenario, l)} :: l in scenario && Closing(l) ==> HasJoin(scenario, l))
  }

  /** The deliveries of a run are redeliveries of the scenario's events, in any order. */
  ghost predicate Deliver(ds: seq<Delivery>, scenario: set<Event>) {
    forall i :: 0 <= i < |ds| ==> Core(ds[i].ev) in scenario
  }

  /** Events that arrived at least once without a database failure. */
  ghost function Arrived(ds: seq<Delivery>): set<Event> {
    set i | 0 <= i < |ds| && ds[i].fault.NoFault? :: Core(ds[i].ev)
  }

  /** Every arrival of a left comes after an arrival of the join it ends. */
  ghost predicate JoinBefore(ds: seq<Delivery>, i: int)
    requires 0 <= i < |ds|
  {
    exists k :: 0 <= k < i && ds[k].fault.NoFault? && Opening(ds[k].ev) && SameSlot(ds[k].ev, ds[i].ev)
  }

  ghost predicate JoinsFirst(ds: seq<Delivery>) {
    forall i {:trigger JoinBefore(ds, i)} :: 0 <= i < |ds| && ds[i].fault.NoFault? && Closing(ds[i].ev) ==>
      JoinBefore(ds, i)
  }

  // ---- the table a set of arrived events stands for ----

  ghost predicate LeftFor(arrived: set<Event>, j: Event, l: Event) { l in arrived && Closing(l) && SameSlot(j, l) }

  ghost predicate FinalRow(arrived: set<Event>, j: Event, row: Join) {
    if row.IsOpen()
    then row == OpenedBy(j) && forall l :: !LeftFor(arrived, j, l)
    else exists l :: LeftFor(arrived, j, l) && row == ClosedBy(OpenedBy(j), l, EndParticipantLeft)
  }

  ghost predicate HasOpening(arrived: set<Event>, id: Id) {
    exists j :: j in arrived && Opening(j) && j.id == id
  }

  /** Each arrived join has its row, closed by its own left if that arrived and open otherwise. */
  ghost predicate IsFinal(joins: map<Id, Join>, arrived: set<Event>) {
    && (forall id {:trigger HasOpening(arrived, id)} :: id in joins ==> HasOpening(arrived, id))
    && (forall j :: j in arrived && Opening(j) ==> j.id in joins)
    && (forall j {:trigger FinalRow(arrived, j, joins[j.id])} :: j in arrived && Opening(j) ==>
          FinalRow(arrived, j, joins[j.id]))
  }

  lemma FinalIsUnique(a: map<Id, Join>, b: map<Id, Join>, arrived: set<Event>)
    requires IsFinal(a, arrived) && IsFinal(b, arrived) && OneLeftPerSlot(arrived)
    ensures a == b
  {
    forall id | id in a || id in b
      ensures id in a && id in b && a[id] == b[id]
    {
      assert HasOpening(arrived, id);
      var j :| j in arrived && Opening(j) && j.id == id;
      assert FinalRow(arrived, j, a[id]) && FinalRow(arrived, j, b[id]);
      OneRow(arrived, j, a[id], b[id]);
    }
  }

  lemma OneRow(arrived: set<Event>, j: Event, r: Join, s: Join)
    requires FinalRow(arrived, j, r) && FinalRow(arrived, j, s) && OneLeftPerSlot(arrived)
    ensures r == s
  {
  }

  lemma ArrivedLast(ds: seq<Delivery>)
    requires |ds| > 0
    ensures Arrived(ds) ==
            Arrived(ds[..|ds| - 1]) + (if ds[|ds| - 1].fault.NoFault? then {Core(ds[|ds| - 1].ev)} else {})
  {
  }

  lemma ArrivedInScenario(ds: seq<Delivery>, scenario: set<Event>)
    requires Deliver(ds, scenario)
    ensures Arrived(ds) <= scenario
  {
  }

  /** An arrived event that acts on joins has its key stored, and only then. */
  ghost predicate KeysMatch(events: map<Key, EventRow>, arrived: set<Event>, scenario: set<Event>) {
    forall e :: e in scenario && (Opening(e) || Closing(e)) ==> (KeyOf(e) in events <==> e in arrived)
  }

  // ---- one new arrival ----

  /** An event that is no left for `j` changes nothing about the final row of `j`. */
  lemma SameRow(arrived: set<Event>, e: Event, j: Event, row: Join)
    requires FinalRow(arrived, j, row) && !LeftFor({e}, j, e)
    ensures FinalRow(arrived + {e}, j, row)
  {
    assert forall l :: LeftFor(arrived + {e}, j, l) <==> LeftFor(arrived, j, l);
    if !row.IsOpen() {
      var l :| LeftFor(arrived, j, l) && row == ClosedBy(OpenedBy(j), l, EndParticipantLeft);
      assert LeftFor(arrived + {e}, j, l);
    }
  }

  lemma OpeningsGrow(arrived: set<Event>, e: Event, id: Id)
    requires HasOpening(arrived, id) || (Opening(e) && e.id == id)
    ensures HasOpening(arrived + {e}, id)
  {
  }

  /** A row's id belongs to the one opening event with that id. */
  lemma RowMeansArrived(joins: map<Id, Join>, arrived: set<Event>, e: Event)
    requires DistinctIds(arrived + {e}) && IsFinal(joins, arrived)
    ensures e.id in joins ==> e in arrived
  {
    if e.id in joins {
      assert HasOpening(arrived, e.id);
      var j :| j in arrived && Opening(j) && j.id == e.id;
      assert j in arrived + {e} && e in arrived + {e};
    }
  }

  lemma OpenArrives(joins: map<Id, Join>, arrived: set<Event>, e: Event)
    requires DistinctIds(arrived + {e}) && IsFinal(joins, arrived) && e !in arrived && Opening(e)
    requires forall l :: !LeftFor(arrived, e, l)
    ensures e.id !in joins
    ensures IsFinal(joins[e.id := OpenedBy(e)], arrived + {e})
  {
    RowMeansArrived(joins, arrived, e);
    var after := joins[e.id := OpenedBy(e)];
    forall j | j in arrived + {e} && Opening(j)
      ensures j.id in after && FinalRow(arrived + {e}, j, after[j.id])
    {
      if j == e {
        assert FinalRow(arrived, e, OpenedBy(e));
        SameRow(arrived, e, e, OpenedBy(e));
      } else {
        assert j.id in joins;
        SameRow(arrived, e, j, joins[j.id]);
      }
    }
    forall id | id in after ensures HasOpening(arrived + {e}, id) { OpeningsGrow(arrived, e, id); }
  }

  /** A join's row is closed only after its one left. */
  lemma ClosedMeansArrived(joins: map<Id, Join>, arrived: set<Event>, j: Event, e: Event)
    requires IsFinal(joins, arrived) && OneLeftPerSlot(arrived + {e})
    requires Closing(e) && j in arrived && Opening(j) && SameSlot(j, e)
    ensures !joins[j.id].IsOpen() ==> e in arrived
  {
    assert FinalRow(arrived, j, joins[j.id]);
    if !joins[j.id].IsOpen() {
      var l :| LeftFor(arrived, j, l) && joins[j.id] == ClosedBy(OpenedBy(j), l, EndParticipantLeft);
      assert l in arrived + {e} && e in arrived + {e} && SameSlot(l, e);
    }
  }

  /** The SID of a left that arrives for the first time finds its join's row and no other. */
  lemma SidFindsItsJoin(joins: map<Id, Join>, arrived: set<Event>, j: Event, e: Event)
    requires IsFinal(joins, arrived) && OneJoinPerSlot(arrived) && SidsPresent(arrived)
    requires OneLeftPerSlot(arrived + {e}) && e !in arrived && Closing(e) && e.sid != []
    requires j in arrived && Opening(j) && SameSlot(j, e)
    ensures joins[j.id] == OpenedBy(j)
    ensures SidTarget(joins, e) == {j.id}
  {
    ClosedMeansArrived(joins, arrived, j, e);
    assert FinalRow(arrived, j, joins[j.id]);
    assert j.id in SidTarget(joins, e);
    forall id | id in SidTarget(joins, e) ensures id == j.id {
      assert HasOpening(arrived, id);
      var k :| k in arrived && Opening(k) && k.id == id;
      assert FinalRow(arrived, k, joins[id]);
      assert joins[id] == OpenedBy(k);
      assert SameSlot(j, k);
    }
  }

  lemma LeftArrives(joins: map<Id, Join>, arrived: set<Event>, j: Event, e: Event)
    requires IsFinal(joins, arrived) && OneJoinPerSlot(arrived) && DistinctIds(arrived) && Closing(e)
    requires j in arrived && Opening(j) && SameSlot(j, e) && joins[j.id] == OpenedBy(j)
    ensures IsFinal(CloseRows(joins, {j.id}, e, EndParticipantLeft), arrived + {e})
  {
    var after := CloseRows(joins, {j.id}, e, EndParticipantLeft);
    forall k | k in arrived + {e} && Opening(k)
      ensures k.id in after && FinalRow(arrived + {e}, k, after[k.id])
    {
      assert k in arrived;
      assert FinalRow(arrived, k, joins[k.id]);
      if k == j {
        assert LeftFor(arrived + {e}, j, e);
      } else {
        assert k.id != j.id && !SameSlot(k, j);
        SameRow(arrived, e, k, joins[k.id]);
      }
    }
    forall id | id in after ensures HasOpening(arrived + {e}, id) { OpeningsGrow(arrived, e, id); }
  }

  lemma IdleArrives(joins: map<Id, Join>, arrived: set<Event>, e: Event)
    requires IsFinal(joins, arrived) && !Opening(e) && !Closing(e)
    ensures IsFinal(joins, arrived + {e})
  {
    forall j | j in arrived + {e} && Opening(j) ensures j.id in joins && FinalRow(arrived + {e}, j, joins[j.id]) {
      assert j in arrived;
      SameRow(arrived, e, j, joins[j.id]);
    }
    forall id | id in joins ensures HasOpening(arrived + {e}, id) { OpeningsGrow(arrived, e, id); }
  }

  // ---- whole runs ----

  lemma JoinsFirstPrefix(ds: seq<Delivery>)
    requires |ds| > 0 && JoinsFirst(ds)
    ensures JoinsFirst(ds[..|ds| - 1])
  {
    var p := ds[..|ds| - 1];
    forall i | 0 <= i < |p| && p[i].fault.NoFault? && Closing(p[i].ev) ensures JoinBefore(p, i) {
      assert p[i] == ds[i] && JoinBefore(ds, i);
      var k :| 0 <= k < i && ds[k].fault.NoFault? && Opening(ds[k].ev) && SameSlot(ds[k].ev, ds[i].ev);
      assert p[k] == ds[k];
    }
  }

  /** Once a left has arrived, so has its join. */
  lemma LeftMeansJoin(ds: seq<Delivery>, scenario: set<Event>, e: Event)
    requires OneJoinPerSlot(scenario) && Deliver(ds, scenario) && JoinsFirst(ds)
    requires Opening(e) && e in scenario
    ensures forall l :: LeftFor(Arrived(ds), e, l) ==> e in Arrived(ds)
  {
    forall l | LeftFor(Arrived(ds), e, l) ensures e in Arrived(ds) {
      var i :| 0 <= i < |ds| && ds[i].fault.NoFault? && Core(ds[i].ev) == l;
      assert JoinBefore(ds, i);
      var k :| 0 <= k < i && ds[k].fault.NoFault? && Opening(ds[k].ev) && SameSlot(ds[k].ev, ds[i].ev);
      var j := Core(ds[k].ev);
      assert j in Arrived(ds) && j in scenario && SameSlot(j, e);
    }
  }

  lemma JoinArrived(ds: seq<Delivery>) returns (j: Event)
    requires |ds| > 0 && JoinsFirst(ds) && ds[|ds| - 1].fault.NoFault? && Closing(ds[|ds| - 1].ev)
    ensures j in Arrived(ds[..|ds| - 1]) && Opening(j) && SameSlot(j, ds[|ds| - 1].ev)
  {
    var n := |ds| - 1;
    assert JoinBefore(ds, n);
    var k :| 0 <= k < n && ds[k].fault.NoFault? && Opening(ds[k].ev) && SameSlot(ds[k].ev, ds[n].ev);
    j := Core(ds[k].ev);
    assert ds[..n][k] == ds[k];
  }

  /** What one delivery of a scenario does to the tables, by case. */
  lemma DeliveryEffect(parts: seq<Partition>, db: Db, d: Delivery)
    requires Covered(parts, d.ev.occurredAt) && !KindOf(d.ev.eventType).ClosesRoom?
    ensures
      var after := Step(parts, db, d).0;
      && (!Opening(d.ev) && !Closing(d.ev) ==>
            && after.joins == db.joins
            && (after.events == db.events || after.events == db.events[KeyOf(d.ev) := RowOf(d.ev)]))
      && ((Opening(d.ev) || Closing(d.ev)) && (!d.fault.NoFault? || KeyOf(d.ev) in db.events) ==> after == db)
      && (Opening(d.ev) && d.fault.NoFault? && KeyOf(d.ev) !in db.events && d.ev.id !in db.joins ==>
            after == Db(db.events[KeyOf(d.ev) := RowOf(d.ev)], db.joins[d.ev.id := OpenedBy(d.ev)]))
      && ((Closing(d.ev) && d.fault.NoFault? && KeyOf(d.ev) !in db.events && d.ev.sid != [] &&
           SidTarget(db.joins, d.ev) != {} && InOrder(db.joins, SidTarget(db.joins, d.ev), d.ev)) ==>
            after == Db(db.events[KeyOf(d.ev) := RowOf(d.ev)],
                        CloseRows(db.joins, SidTarget(db.joins, d.ev), d.ev, EndParticipantLeft)))
  {
  }

  lemma KeysStillMatch(events: map<Key, EventRow>, arrived: set<Event>, scenario: set<Event>, ev: Event)
    requires DistinctIds(scenario) && KeysMatch(events, arrived, scenario) && Core(ev) in scenario
    ensures KeysMatch(events[KeyOf(ev) := RowOf(ev)], arrived + {Core(ev)}, scenario)
  {
  }

  ghost predicate Matches(db: Db, arrived: set<Event>, scenario: set<Event>) {
    IsFinal(db.joins, arrived) && KeysMatch(db.events, arrived, scenario)
  }

  lemma IdleDelivery(parts: seq<Partition>, scenario: set<Event>, db: Db, arrived: set<Event>, d: Delivery)
    requires DistinctIds(scenario) && Core(d.ev) in scenario && Covered(parts, d.ev.occurredAt)
    requires Matches(db, arrived, scenario) && KindOf(d.ev.eventType).NoEffect?
    ensures Matches(Step(parts, db, d).0, arrived, scenario)
    ensures Matches(Step(parts, db, d).0, arrived + {Core(d.ev)}, scenario)
  {
    DeliveryEffect(parts, db, d);
    IdleArrives(db.joins, arrived, Core(d.ev));
    KeysStillMatch(db.events, arrived, scenario, d.ev);
  }

  lemma OpenDelivery(parts: seq<Partition>, scenario: set<Event>, db: Db, arrived: set<Event>, d: Delivery)
    requires DistinctIds(scenario) && Core(d.ev) in scenario - arrived && arrived <= scenario
    requires Covered(parts, d.ev.occurredAt)
    requires Matches(db, arrived, scenario) && Opening(d.ev) && d.fault.NoFault?
    requires forall l :: !LeftFor(arrived, Core(d.ev), l)
    ensures Matches(Step(parts, db, d).0, arrived + {Core(d.ev)}, scenario)
  {
    var e := Core(d.ev);
    assert KeyOf(e) == KeyOf(d.ev) && OpenedBy(e) == OpenedBy(d.ev);
    OpenArrives(db.joins, arrived, e);
    DeliveryEffect(parts, db, d);
    KeysStillMatch(db.events, arrived, scenario, d.ev);
  }

  /** The body bytes play no part in a close. */
  lemma CoreCloses(joins: map<Id, Join>, ev: Event, target: set<Id>)
    ensures SidTarget(joins, ev) == SidTarget(joins, Core(ev))
    ensures CloseRows(joins, target, ev, EndParticipantLeft) == CloseRows(joins, target, Core(ev), EndParticipantLeft)
  {
  }

  lemma LeftDelivery(parts: seq<Partition>, scenario: set<Event>, db: Db, arrived: set<Event>, d: Delivery, j: Event)
    requires DistinctIds(scenario) && OneJoinPerSlot(scenario) && OneLeftPerSlot(scenario) && SidsPresent(scenario)
    requires Core(d.ev) in scenario - arrived && arrived <= scenario
    requires Covered(parts, d.ev.occurredAt) && HasJoin(scenario, Core(d.ev))
    requires Matches(db, arrived, scenario) && Closing(d.ev) && d.fault.NoFault?
    requires j in arrived && Opening(j) && SameSlot(j, d.ev)
    ensures Matches(Step(parts, db, d).0, arrived + {Core(d.ev)}, scenario)
  {
    var e := Core(d.ev);
    assert KeyOf(e) == KeyOf(d.ev);
    SidFindsItsJoin(db.joins, arrived, j, e);
    LeftArrives(db.joins, arrived, j, e);
    CoreCloses(db.joins, d.ev, {j.id});
    DeliveryEffect(parts, db, d);
    KeysStillMatch(db.events, arrived, scenario, d.ev);
  }

  /** Along a run of a scenario the table is always the one its arrivals stand for. */
  lemma {:induction false} FinalTable(parts: seq<Partition>, scenario: set<Event>, ds: seq<Delivery>)
    requires Scenario(parts, scenario) && Deliver(ds, scenario) && JoinsFirst(ds)
    ensures Matches(After(parts, EMPTY, ds), Arrived(ds), scenario)
    decreases |ds|
  {
    if |ds| == 0 {
    } else {
      var n := |ds| - 1;
      var before, d := ds[..n], ds[n];
      var db, arrived, e := After(parts, EMPTY, before), Arrived(before), Core(d.ev);
      JoinsFirstPrefix(ds);
      FinalTable(parts, scenario, before);
      AfterLast(parts, EMPTY, ds);
      ArrivedLast(ds);
      ArrivedInScenario(before, scenario);
      assert e in scenario;
      assert Arrived(ds) == if d.fault.NoFault? then arrived + {e} else arrived;
      if KindOf(d.ev.eventType).NoEffect? {
        IdleDelivery(parts, scenario, db, arrived, d);
      } else if !d.fault.NoFault? || e in arrived {
        assert d.fault.NoFault? ==> arrived + {e} == arrived;
        DeliveryEffect(parts, db, d);
      } else if Opening(d.ev) {
        LeftMeansJoin(before, scenario, e);
        OpenDelivery(parts, scenario, db, arrived, d);
      } else {
        var j := JoinArrived(ds);
        assert HasJoin(scenario, e);
        LeftDelivery(parts, scenario, db, arrived, d, j);
      }
    }
  }

  /** Confluence: the same arrivals, in any two orders that put joins before their lefts, with any
      redeliveries, bodies, ties and failed attempts, end in the same join table. */
  lemma {:induction false} OrderDoesNotMatter(
    parts: seq<Partition>, scenario: set<Event>, ds: seq<Delivery>, es: seq<Delivery>)
    requires Scenario(parts, scenario) && Deliver(ds, scenario) && Deliver(es, scenario)
    requires JoinsFirst(ds) && JoinsFirst(es) && Arrived(ds) == Arrived(es)
    ensures After(parts, EMPTY, ds).joins == After(parts, EMPTY, es).joins
    ensures IsFinal(After(parts, EMPTY, ds).joins, Arrived(ds))
  {
    FinalTable(parts, scenario, ds);
    FinalTable(parts, scenario, es);
    ArrivedInScenario(ds, scenario);
    FinalIsUnique(After(parts, EMPTY, ds).joins, After(parts, EMPTY, es).joins, Arrived(ds));
  }

  // ---- the order is also necessary ----

  /** No close that was refused as out of order is delivered again: retrying it could repair the order. */
  ghost predicate NoRefusedRetry(parts: seq<Partition>, ds: seq<Delivery>) {
    forall i, k :: 0 <= i < k < |ds| && ds[i].fault.NoFault? && ds[k].fault.NoFault? && ds[i].ev.id == ds[k].ev.id ==>
      Outcomes(parts, EMPTY, ds)[i] != Err(CloseOutOfOrder)
  }

  ghost predicate NotEndedBy(joins: map<Id, Join>, id: Id, ender: Id) {
    id in joins ==> joins[id].endedEventId != Some(ender)
  }

  lemma OtherEventsDoNotEnd(parts: seq<Partition>, db: Db, d: Delivery, id: Id, ender: Id)
    requires NotEndedBy(db.joins, id, ender)
    requires d.fault.NoFault? && d.ev.id == ender ==> id !in db.joins || KeyOf(d.ev) in db.events
    requires d.ev.id == id ==> Opening(d.ev)
    ensures NotEndedBy(Step(parts, db, d).0.joins, id, ender)
  {
  }

  /** The delivery cannot end the row: it is another event's, or its key is stored already. */
  ghost predicate Spent(db: Db, d: Delivery, id: Id, ender: Id) {
    && (d.fault.NoFault? && d.ev.id == ender ==> KeyOf(d.ev) in db.events)
    && (d.ev.id == id ==> Opening(d.ev))
  }

  lemma {:induction false} SuffixDoesNotEnd(parts: seq<Partition>, db: Db, ds: seq<Delivery>, id: Id, ender: Id)
    requires NotEndedBy(db.joins, id, ender) && forall k :: 0 <= k < |ds| ==> Spent(db, ds[k], id, ender)
    ensures NotEndedBy(After(parts, db, ds).joins, id, ender)
    decreases ds
  {
    if |ds| == 0 {
    } else {
      var next := Step(parts, db, ds[0]).0;
      assert Spent(db, ds[0], id, ender);
      OtherEventsDoNotEnd(parts, db, ds[0], id, ender);
      ExtendsStep(parts, db, ds[0]);
      forall k | 0 <= k < |ds[1..]| ensures Spent(next, ds[1..][k], id, ender) {
        assert Spent(db, ds[k + 1], id, ender);
      }
      SuffixDoesNotEnd(parts, next, ds[1..], id, ender);
    }
  }

  ghost predicate OpenedIn(ds: seq<Delivery>, id: Id) {
    exists k :: 0 <= k < |ds| && ds[k].fault.NoFault? && Opening(ds[k].ev) && ds[k].ev.id == id
  }

  lemma {:induction false} RowsComeFromOpenings(parts: seq<Partition>, ds: seq<Delivery>, id: Id)
    ensures id in After(parts, EMPTY, ds).joins ==> OpenedIn(ds, id)
    decreases |ds|
  {
    if |ds| == 0 {
    } else {
      var n := |ds| - 1;
      RowsComeFromOpenings(parts, ds[..n], id);
      AfterLast(parts, EMPTY, ds);
      StoringStep(parts, After(parts, EMPTY, ds[..n]), ds[n]);
      if OpenedIn(ds[..n], id) {
        var k :| 0 <= k < n && ds[..n][k].fault.NoFault? && Opening(ds[..n][k].ev) && ds[..n][k].ev.id == id;
        assert ds[k] == ds[..n][k];
      }
    }
  }

  /** If the row of `j` exists when the left at `i` is delivered, the left did not come first. */
  lemma RowMeansJoinBefore(parts: seq<Partition>, scenario: set<Event>, ds: seq<Delivery>, i: int, j: Event)
    requires DistinctIds(scenario) && Deliver(ds, scenario) && 0 <= i < |ds| && j in scenario && SameSlot(j, ds[i].ev)
    ensures j.id in After(parts, EMPTY, ds[..i]).joins ==> JoinBefore(ds, i)
  {
    RowsComeFromOpenings(parts, ds[..i], j.id);
    if OpenedIn(ds[..i], j.id) {
      var k :| 0 <= k < i && ds[..i][k].fault.NoFault? && Opening(ds[..i][k].ev) && ds[..i][k].ev.id == j.id;
      assert ds[k] == ds[..i][k];
      assert Core(ds[k].ev) == j;
    }
  }

  /** After a left has been delivered without failure and was not refused, its key is stored. */
  lemma LeftIsStored(parts: seq<Partition>, db: Db, d: Delivery)
    requires d.fault.NoFault? && Covered(parts, d.ev.occurredAt)
    ensures Step(parts, db, d).1 != Err(CloseOutOfOrder) ==> KeyOf(d.ev) in Step(parts, db, d).0.events
  {
  }

  /** A left that arrives before its join never ends it, whatever follows but a retry of its refusal. */
  lemma EarlyLeftNeverEnds(parts: seq<Partition>, scenario: set<Event>, ds: seq<Delivery>, i: int, j: Event)
    requires DistinctIds(scenario) && Deliver(ds, scenario) && NoRefusedRetry(parts, ds)
    requires 0 <= i < |ds| && ds[i].fault.NoFault? && Closing(ds[i].ev) && !JoinBefore(ds, i)
    requires j in scenario && Opening(j) && SameSlot(j, ds[i].ev) && Covered(parts, ds[i].ev.occurredAt)
    ensures NotEndedBy(After(parts, EMPTY, ds).joins, j.id, ds[i].ev.id)
  {
    var d, rest := ds[i], ds[i + 1..];
    var db := After(parts, EMPTY, ds[..i]);
    var next := Step(parts, db, d).0;
    RowMeansJoinBefore(parts, scenario, ds, i, j);
    assert Core(d.ev) in scenario;
    OtherEventsDoNotEnd(parts, db, d, j.id, d.ev.id);
    OutcomeAt(parts, EMPTY, ds, i);
    LeftIsStored(parts, db, d);
    forall k | 0 <= k < |rest| ensures Spent(next, rest[k], j.id, d.ev.id) {
      assert rest[k] == ds[i + 1 + k] && Core(rest[k].ev) in scenario;
      assert rest[k].ev.id == d.ev.id ==> Core(rest[k].ev) == Core(d.ev);
      assert rest[k].ev.id == j.id ==> Core(rest[k].ev) == j;
    }
    SuffixDoesNotEnd(parts, next, rest, j.id, d.ev.id);
    assert ds == ds[..i] + ds[i..] && ds[i..][1..] == rest;
    AfterConcat(parts, EMPTY, ds[..i], ds[i..]);
  }

  lemma FinalMeansEnded(joins: map<Id, Join>, scenario: set<Event>, j: Event, l: Event)
    requires IsFinal(joins, scenario) && OneLeftPerSlot(scenario)
    requires j in scenario && Opening(j) && LeftFor(scenario, j, l)
    ensures !NotEndedBy(joins, j.id, l.id)
  {
    assert FinalRow(scenario, j, joins[j.id]);
    var m :| LeftFor(scenario, j, m) && joins[j.id] == ClosedBy(OpenedBy(j), m, EndParticipantLeft);
    assert SameSlot(m, l);
  }

  lemma {:induction false} FinalMeansJoinBefore(parts: seq<Partition>, scenario: set<Event>, ds: seq<Delivery>, i: int)
    requires Scenario(parts, scenario) && Deliver(ds, scenario) && NoRefusedRetry(parts, ds)
    requires 0 <= i < |ds| && ds[i].fault.NoFault? && Closing(ds[i].ev)
    requires IsFinal(After(parts, EMPTY, ds).joins, scenario)
    ensures JoinBefore(ds, i)
  {
    var l := Core(ds[i].ev);
    assert l in scenario && HasJoin(scenario, l);
    var j :| j in scenario && Opening(j) && SameSlot(j, l) && j.occurredAt <= l.occurredAt;
    FinalMeansEnded(After(parts, EMPTY, ds).joins, scenario, j, l);
    if !JoinBefore(ds, i) {
      EarlyLeftNeverEnds(parts, scenario, ds, i, j);
    }
  }

  /** When every event of the scenario arrives, with any redeliveries that do not retry a refused close, the
      table is the one the events stand for if and only if each join arrived before its left. */
  lemma {:induction false} OrderMattersExactly(parts: seq<Partition>, scenario: set<Event>, ds: seq<Delivery>)
    requires Scenario(parts, scenario) && Deliver(ds, scenario) && Arrived(ds) == scenario
    requires NoRefusedRetry(parts, ds)
    ensures IsFinal(After(parts, EMPTY, ds).joins, scenario) <==> JoinsFirst(ds)
  {
    if JoinsFirst(ds) {
      FinalTable(parts, scenario, ds);
    }
    if IsFinal(After(parts, EMPTY, ds).joins, scenario) {
      forall i | 0 <= i < |ds| && ds[i].fault.NoFault? && Closing(ds[i].ev) ensures JoinBefore(ds, i) {
        FinalMeansJoinBefore(parts, scenario, ds, i);
      }
    }
  }

  /** The run with every refused close marked as a failed delivery, which is what it amounts to. */
  ghost function Marked(parts: seq<Partition>, db: Db, ds: seq<Delivery>): (marked: seq<Delivery>)
    ensures |marked| == |ds|
    decreases ds
  {
    if |ds| == 0 then []
    else
      var (next, outcome) := Step(parts, db, ds[0]);
      [if outcome == Err(CloseOutOfOrder) then ds[0].(fault := AtBegin) else ds[0]] + Marked(parts, next, ds[1..])
  }

  lemma {:induction false} MarkedRun(parts: seq<Partition>, db: Db, ds: seq<Delivery>)
    ensures
      var marked := Marked(parts, db, ds);
      && After(parts, db, marked) == After(parts, db, ds)
      && (forall i :: 0 <= i < |ds| ==> Outcomes(parts, db, marked)[i] != Err(CloseOutOfOrder))
      && (forall i :: 0 <= i < |ds| ==> marked[i].ev == ds[i].ev)
    decreases ds
  {
    if |ds| == 0 {
    } else {
      var marked, next := Marked(parts, db, ds), Step(parts, db, ds[0]).0;
      MarkedRun(parts, next, ds[1..]);
      assert marked[1..] == Marked(parts, next, ds[1..]);
      assert Step(parts, db, marked[0]).0 == next;
    }
  }

  /** So for every run, refused closes retried or not: once every event has arrived without being refused,
      the table is the expected one if and only if each join arrived before the first such arrival of its left. */
  lemma OrderMattersWithRefusals(parts: seq<Partition>, scenario: set<Event>, ds: seq<Delivery>)
    requires Scenario(parts, scenario) && Deliver(ds, scenario)
    requires Arrived(Marked(parts, EMPTY, ds)) == scenario
    ensures IsFinal(After(parts, EMPTY, ds).joins, scenario) <==> JoinsFirst(Marked(parts, EMPTY, ds))
  {
    MarkedRun(parts, EMPTY, ds);
    OrderMattersExactly(parts, scenario, Marked(parts, EMPTY, ds));
  }

  function Sample(id: Id, eventType: Text, at: Instant): Event {
    Event(id, LIVEKIT, [], eventType, at, [1], [], [2], [3], [], [])
  }

  /** The smallest case: a left delivered ahead of its join is stored as unmatched, and the join stays open. */
  lemma EarlyLeftLeavesJoinOpen()
    ensures
      var parts := [Partition(0, 10)];
      var left, join := Sample([1], PARTICIPANT_LEFT, 5), Sample([2], PARTICIPANT_JOINED, 3);
      var ds := [Delivery(left, [], NoFault), Delivery(join, [], NoFault)];
      && Outcomes(parts, EMPTY, ds) == [Ok(Result(true, false, 0, true)), Ok(Result(true, true, 0, false))]
      && After(parts, EMPTY, ds).joins == map[join.id := OpenedBy(join)]
  {
    var parts := [Partition(0, 10)];
    var left, join := Sample([1], PARTICIPANT_LEFT, 5), Sample([2], PARTICIPANT_JOINED, 3);
    var d1, d2 := Delivery(left, [], NoFault), Delivery(join, [], NoFault);
    assert parts[0].from <= 3 < 5 < parts[0].to;
    assert LeftTarget(EMPTY.joins, left, []) == {};
    var db := Step(parts, EMPTY, d1).0;
    assert db == Db(map[KeyOf(left) := RowOf(left)], map[]);
    assert [d1, d2][1..] == [d2] && [d2][1..] == [];
    assert Outcomes(parts, db, [d2]) == [Step(parts, db, d2).1] + Outcomes(parts, Step(parts, db, d2).0, []);
    assert After(parts, EMPTY, [d1, d2]) == After(parts, db, [d2]) == Step(parts, db, d2).0;
  }
}

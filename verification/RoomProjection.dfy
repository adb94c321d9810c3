/** Rooms do not interfere: one room's joins and results are those of running that room's events alone. */
module RoomProjection {
  import opened Domain
  import opened JoinStore

  datatype Scope = Scope(backend: Text, roomName: Text)

  function ScopeOf(ev: Event): Scope { Scope(ev.backend, ev.roomName) }

  predicate RowIn(row: EventRow, s: Scope) { row.backend == s.backend && row.roomName == Nullable(s.roomName) }
  predicate JoinIn(j: Join, s: Scope) { j.backend == s.backend && j.roomName == s.roomName }

  function JoinsOf(joins: map<Id, Join>, s: Scope): map<Id, Join> {
    map id | id in joins && JoinIn(joins[id], s) :: joins[id]
  }

  /** The rows of one room. */
  function Project(db: Db, s: Scope): Db {
    Db(map key | key in db.events && RowIn(db.events[key], s) :: db.events[key], JoinsOf(db.joins, s))
  }

  /** The deliveries of one room, in order. */
  function DeliveriesOf(ds: seq<Delivery>, s: Scope): seq<Delivery> {
    if |ds| == 0 then []
    else (if ScopeOf(ds[0].ev) == s then [ds[0]] else []) + DeliveriesOf(ds[1..], s)
  }

  /** The outcomes at the positions of one room's deliveries. */
  function OutcomesOf(ds: seq<Delivery>, os: seq<Outcome>, s: Scope): seq<Outcome>
    requires |ds| == |os|
  {
    if |ds| == 0 then []
    else (if ScopeOf(ds[0].ev) == s then [os[0]] else []) + OutcomesOf(ds[1..], os[1..], s)
  }

  /** Events of two rooms collide when they have the same key, or the same id and both open a join. */
  predicate Collide(e: Event, f: Event) {
    ScopeOf(e) != ScopeOf(f) && e.id == f.id &&
    (e.occurredAt == f.occurredAt || (KindOf(e.eventType).Opens? && KindOf(f.eventType).Opens?))
  }

  ghost predicate NoCollisions(ds: seq<Delivery>) {
    forall i, k :: 0 <= i < |ds| && 0 <= k < |ds| ==> !Collide(ds[i].ev, ds[k].ev)
  }

  /** The event meets a row of another room: its key is stored there, or its key is new and the join it
      would open is there already. */
  predicate Intruded(db: Db, ev: Event) {
    if KeyOf(ev) in db.events then !RowIn(db.events[KeyOf(ev)], ScopeOf(ev))
    else KindOf(ev.eventType).Opens? && ev.id in db.joins && !JoinIn(db.joins[ev.id], ScopeOf(ev))
  }

  /** Neither the event's key nor, for a joined event, its id belongs to another room. */
  predicate Clear(db: Db, ev: Event) {
    && (KeyOf(ev) in db.events ==> RowIn(db.events[KeyOf(ev)], ScopeOf(ev)))
    && (KindOf(ev.eventType).Opens? && ev.id in db.joins ==> JoinIn(db.joins[ev.id], ScopeOf(ev)))
  }

  lemma SameTargets(joins: map<Id, Join>, ev: Event, hint: Id)
    ensures RoomTarget(JoinsOf(joins, ScopeOf(ev)), ev) == RoomTarget(joins, ev)
    ensures LeftTarget(JoinsOf(joins, ScopeOf(ev)), ev, hint) == LeftTarget(joins, ev, hint)
  {
    var mine := JoinsOf(joins, ScopeOf(ev));
    assert SidTarget(mine, ev) == SidTarget(joins, ev);
    assert IdentityTarget(mine, ev) == IdentityTarget(joins, ev);
    var ids := IdentityTarget(joins, ev);
    assert forall id :: id in ids ==> mine[id] == joins[id];
    assert Latest(mine, ids) == Latest(joins, ids);
  }

  lemma CloseProjects(joins: map<Id, Join>, target: set<Id>, ev: Event, reason: EndReason, s: Scope)
    requires target <= joins.Keys
    requires forall id :: id in target ==> JoinIn(joins[id], ScopeOf(ev))
    ensures JoinsOf(CloseRows(joins, target, ev, reason), s) ==
            if s == ScopeOf(ev) then CloseRows(JoinsOf(joins, s), target, ev, reason) else JoinsOf(joins, s)
  {
  }

  /** The effect in one room, computed on that room's joins alone. */
  lemma EffectProjects(joins: map<Id, Join>, ev: Event, hint: Id)
    requires KindOf(ev.eventType).Opens? && ev.id in joins ==> JoinIn(joins[ev.id], ScopeOf(ev))
    ensures
      var whole, mine := JoinEffect(joins, ev, hint), JoinEffect(JoinsOf(joins, ScopeOf(ev)), ev, hint);
      && (whole.OutOfOrder? <==> mine.OutOfOrder?)
      && (whole.Applied? ==> mine == Applied(JoinsOf(whole.joins, ScopeOf(ev)), whole.result))
  {
    var s := ScopeOf(ev);
    SameTargets(joins, ev, hint);
    match KindOf(ev.eventType) {
      case Opens =>
        assert JoinsOf(joins[ev.id := OpenedBy(ev)], s) == JoinsOf(joins, s)[ev.id := OpenedBy(ev)];
      case ClosesOne =>
        CloseProjects(joins, LeftTarget(joins, ev, hint), ev, EndParticipantLeft, s);
      case ClosesRoom =>
        CloseProjects(joins, RoomTarget(joins, ev), ev, EndRoomFinished, s);
      case NoEffect =>
    }
  }

  /** An event of another room leaves this room's joins alone. */
  lemma EffectElsewhere(joins: map<Id, Join>, ev: Event, hint: Id, s: Scope)
    requires s != ScopeOf(ev) && JoinEffect(joins, ev, hint).Applied?
    ensures JoinsOf(JoinEffect(joins, ev, hint).joins, s) == JoinsOf(joins, s)
  {
  }

  lemma EventsProject(db: Db, ev: Event)
    requires KeyOf(ev) in db.events ==> RowIn(db.events[KeyOf(ev)], ScopeOf(ev))
    ensures KeyOf(ev) in Project(db, ScopeOf(ev)).events <==> KeyOf(ev) in db.events
    ensures forall joins :: Project(Db(db.events[KeyOf(ev) := RowOf(ev)], joins), ScopeOf(ev)) ==
                            Db(Project(db, ScopeOf(ev)).events[KeyOf(ev) := RowOf(ev)], JoinsOf(joins, ScopeOf(ev)))
  {
  }

  /** A step of this room is the same step on this room's rows alone, with the same outcome. */
  ghost predicate StepsAlone(parts: seq<Partition>, db: Db, d: Delivery) {
    var s := ScopeOf(d.ev);
    Step(parts, Project(db, s), d) == (Project(Step(parts, db, d).0, s), Step(parts, db, d).1)
  }

  lemma StepInside(parts: seq<Partition>, db: Db, d: Delivery)
    requires !Intruded(db, d.ev)
    ensures StepsAlone(parts, db, d)
  {
    EventsProject(db, d.ev);
    if KeyOf(d.ev) !in db.events {
      EffectProjects(db.joins, d.ev, d.hint);
    }
  }

  /** For a delivery that meets no failure and has a partition, exactly then. */
  lemma StepsAloneExactly(parts: seq<Partition>, db: Db, d: Delivery)
    requires d.fault.NoFault? && Covered(parts, d.ev.occurredAt)
    ensures StepsAlone(parts, db, d) <==> !Intruded(db, d.ev)
  {
    if !Intruded(db, d.ev) {
      StepInside(parts, db, d);
    }
  }

  lemma StepOutside(parts: seq<Partition>, db: Db, d: Delivery, s: Scope)
    requires s != ScopeOf(d.ev)
    ensures Project(Step(parts, db, d).0, s) == Project(db, s)
  {
    StoringStep(parts, db, d);
    if Stores(parts, db, d) {
      EffectElsewhere(db.joins, d.ev, d.hint, s);
    }
  }

  lemma ClearanceKept(parts: seq<Partition>, db: Db, d: Delivery, later: Event)
    requires Clear(db, later) && !Collide(d.ev, later)
    ensures Clear(Step(parts, db, d).0, later)
  {
  }

  lemma {:induction false} Projects(parts: seq<Partition>, db: Db, ds: seq<Delivery>, s: Scope)
    requires NoCollisions(ds) && forall i :: 0 <= i < |ds| ==> Clear(db, ds[i].ev)
    ensures Project(After(parts, db, ds), s) == After(parts, Project(db, s), DeliveriesOf(ds, s))
    ensures OutcomesOf(ds, Outcomes(parts, db, ds), s) == Outcomes(parts, Project(db, s), DeliveriesOf(ds, s))
    decreases ds
  {
    if |ds| == 0 {
    } else {
      var d, rest := ds[0], ds[1..];
      var next := Step(parts, db, d).0;
      forall i | 0 <= i < |rest| ensures Clear(next, rest[i].ev) {
        assert rest[i] == ds[i + 1];
        ClearanceKept(parts, db, d, rest[i].ev);
      }
      Projects(parts, next, rest, s);
      assert Outcomes(parts, db, ds)[1..] == Outcomes(parts, next, rest);
      if ScopeOf(d.ev) == s {
        StepInside(parts, db, d);
        assert DeliveriesOf(ds, s)[1..] == DeliveriesOf(rest, s);
      } else {
        StepOutside(parts, db, d, s);
        assert DeliveriesOf(ds, s) == DeliveriesOf(rest, s);
        assert OutcomesOf(ds, Outcomes(parts, db, ds), s) == OutcomesOf(rest, Outcomes(parts, next, rest), s);
      }
    }
  }

  /** Running everything and keeping one room equals running that room alone: same rows, same results, for
      every way of breaking ties and every pattern of failures. Rooms may share ids: only the same key, or
      one id opening a join in both, is excluded. */
  lemma RoomsAreIndependent(parts: seq<Partition>, ds: seq<Delivery>, s: Scope)
    requires NoCollisions(ds)
    ensures Project(After(parts, EMPTY, ds), s) == After(parts, EMPTY, DeliveriesOf(ds, s))
    ensures OutcomesOf(ds, Outcomes(parts, EMPTY, ds), s) == Outcomes(parts, EMPTY, DeliveriesOf(ds, s))
  {
    assert Project(EMPTY, s) == EMPTY;
    Projects(parts, EMPTY, ds, s);
  }

  function Joined(room: Text): Event { Event([7], LIVEKIT, [], PARTICIPANT_JOINED, 1, room, [], [], [], [], []) }

  /** Without that, a key shared by two rooms hides the second room's join behind the first. */
  lemma SharedIdInterferes()
    ensures
      var parts, s := [Partition(0, 10)], Scope(LIVEKIT, [2]);
      var ds := [Delivery(Joined([1]), [], NoFault), Delivery(Joined([2]), [], NoFault)];
      && Project(After(parts, EMPTY, ds), s).joins == map[]
      && After(parts, EMPTY, DeliveriesOf(ds, s)).joins == map[[7] := OpenedBy(Joined([2]))]
  {
    var parts, s := [Partition(0, 10)], Scope(LIVEKIT, [2]);
    var d1, d2 := Delivery(Joined([1]), [], NoFault), Delivery(Joined([2]), [], NoFault);
    assert parts[0].from <= 1 < parts[0].to;
    assert [1][0] != [2][0];
    assert [d1, d2][1..] == [d2] && [d2][1..] == [];
    var db1 := Step(parts, EMPTY, d1).0;
    assert db1 == Db(map[KeyOf(d1.ev) := RowOf(d1.ev)], map[[7] := OpenedBy(d1.ev)]);
    assert After(parts, EMPTY, [d1, d2]) == After(parts, db1, [d2]) == db1;
    assert DeliveriesOf([d2], s) == [d2] && DeliveriesOf([d1, d2], s) == [d2];
    assert After(parts, EMPTY, [d2]) == Step(parts, EMPTY, d2).0;
  }
}

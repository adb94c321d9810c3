/** RecordEvent as the program runs it: statement by statement inside one transaction,
    with rows updated one at a time and a rollback when a statement fails. */
module PostgresStore {
  import opened Domain
  import opened JoinStore

  class Store {
    const partitions: seq<Partition>
    var events: map<Key, EventRow>
    var joins: map<Id, Join>

    ghost function Tables(): Db
      reads this
    {
      Db(events, joins)
    }

    constructor (partitions: seq<Partition>)
      ensures this.partitions == partitions && Tables() == EMPTY
    {
      this.partitions := partitions;
      events, joins := map[], map[];
    }

    /** UPDATE ... WHERE: visits the selected rows in some order and fails at the first row whose
        active_range would be reversed, leaving the rows visited before it already changed. */
    method UpdateRows(target: set<Id>, ev: Event, reason: EndReason) returns (ok: bool, affected: nat)
      requires target <= joins.Keys
      modifies this`joins
      ensures ok <==> InOrder(old(joins), target, ev)
      ensures ok ==> affected == |target| && joins == CloseRows(old(joins), target, ev, reason)
    {
      var todo := target;
      ok, affected := true, 0;
      assert joins == CloseRows(joins, target - todo, ev, reason);
      while todo != {}
        invariant todo <= target
        invariant affected == |target| - |todo|
        invariant joins == CloseRows(old(joins), target - todo, ev, reason)
        invariant InOrder(old(joins), target - todo, ev)
      {
        var id :| id in todo;
        if joins[id].startedAt > ev.occurredAt {
          assert old(joins)[id] == joins[id];
          return false, affected;
        }
        joins := joins[id := ClosedBy(joins[id], ev, reason)];
        todo := todo - {id};
        affected := affected + 1;
      }
      assert target - todo == target;
    }

    /** SELECT join_id ... ORDER BY started_at DESC LIMIT 1, as a scan that keeps the latest row seen. */
    method SelectLatest(ids: set<Id>) returns (best: Option<Id>)
      requires ids <= joins.Keys
      ensures best.None? <==> ids == {}
      ensures best.Some? ==> best.value in Latest(joins, ids)
    {
      var todo := ids;
      best := None;
      while todo != {}
        invariant todo <= ids
        invariant best.None? <==> todo == ids
        invariant best.Some? ==> best.value in Latest(joins, ids - todo)
      {
        var id :| id in todo;
        if best.None? || joins[best.value].startedAt < joins[id].startedAt {
          best := Some(id);
        }
        todo := todo - {id};
      }
      assert ids - todo == ids;
    }

    /** close: by SID when the event carries one and that affects a row, otherwise by identity. */
    method Close(ev: Event) returns (ok: bool, affected: nat, ghost hint: Id)
      modifies this`joins
      ensures ok <==> InOrder(old(joins), LeftTarget(old(joins), ev, hint), ev)
      ensures ok ==>
                var target := LeftTarget(old(joins), ev, hint);
                affected == |target| && joins == CloseRows(old(joins), target, ev, EndParticipantLeft)
    {
      hint := [];
      if ev.sid != [] {
        var target := SidTarget(joins, ev);
        ok, affected := UpdateRows(target, ev, EndParticipantLeft);
        if !ok {
          return;
        }
        if affected > 0 {
          return;
        }
        assert target == {};
        assert joins == old(joins);
      }
      var best := SelectLatest(IdentityTarget(joins, ev));
      var target := if best.Some? then {best.value} else {};
      hint := if best.Some? then best.value else [];
      assert target == LeftTarget(joins, ev, hint);
      ok, affected := UpdateRows(target, ev, EndParticipantLeft);
    }

    method ApplyJoinEffect(ev: Event) returns (ok: bool, result: Result, ghost hint: Id)
      modifies this`joins
      ensures ok <==> JoinEffect(old(joins), ev, hint).Applied?
      ensures ok ==> JoinEffect(old(joins), ev, hint) == Applied(joins, result)
    {
      ok, hint := true, [];
      result := Result(true, false, 0, false);
      match KindOf(ev.eventType) {
        case Opens =>
          if ev.id !in joins {
            joins := joins[ev.id := OpenedBy(ev)];
            result := result.(joinOpened := true);
          }
        case ClosesOne =>
          var n;
          ok, n, hint := Close(ev);
          result := result.(joinsClosed := n, closeUnmatched := n == 0);
        case ClosesRoom =>
          var n;
          ok, n := UpdateRows(RoomTarget(joins, ev), ev, EndRoomFinished);
          result := result.(joinsClosed := n);
        case NoEffect =>
      }
    }

    /** RecordEvent. `result` is read only when there is no error. */
    method RecordEvent(ev: Event, fault: Fault) returns (result: Result, err: Option<Error>, ghost hint: Id)
      modifies this
      ensures
        var (after, outcome) := Step(partitions, old(Tables()), Delivery(ev, hint, fault));
        && Tables() == after
        && outcome == if err.None? then Ok(result) else Err(err.value)
    {
      hint := [];
      result := Result(false, false, 0, false);
      if fault.AtBegin? {
        return result, Some(StoreFailed), hint;
      }
      var savedEvents, savedJoins := events, joins;
      if fault.AtInsert? {
        return result, Some(StoreFailed), hint;
      }
      if !Covered(partitions, ev.occurredAt) {
        return result, Some(PartitionMissing), hint;
      }
      if KeyOf(ev) in events {
        return result, if fault.AtCommit? then Some(StoreFailed) else None, hint;
      }
      events := events[KeyOf(ev) := RowOf(ev)];
      result := result.(stored := true);

      if fault.AtEffect? && !KindOf(ev.eventType).NoEffect? {
        events, joins := savedEvents, savedJoins;
        return result, Some(StoreFailed), hint;
      }
      var ok;
      ok, result, hint := ApplyJoinEffect(ev);
      if !ok {
        events, joins := savedEvents, savedJoins;
        return result, Some(CloseOutOfOrder), hint;
      }
      if fault.AtCommit? {
        events, joins := savedEvents, savedJoins;
        return result, Some(StoreFailed), hint;
      }
      err := None;
    }
  }
}

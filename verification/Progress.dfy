/** Deliveries in flight do not block each other for good: how a race for one key ends, and that every reachable
    state can be brought to an end. */
module Progress {
  import opened Concurrency
  import opened Domain
  import opened JoinStore

  /** `second` waits for the row that `first` holds. */
  ghost predicate Race(parts: seq<Partition>, start: Db, w: World, first: nat, second: nat) {
    && Inv(parts, start, w) && first < |w.txs| && second < |w.txs| && first != second
    && w.txs[first].phase.Effected? && (w.txs[second].phase.Ready? || w.txs[second].phase.Waiting?)
    && KeyOf(w.txs[first].ev) == KeyOf(w.txs[second].ev)
  }

  lemma CommitBringsConflict(parts: seq<Partition>, start: Db, w: World, first: nat, second: nat)
    requires Race(parts, start, w, first, second)
    ensures
      var after := Act(parts, Act(parts, w, Commit(first)), Insert(second));
      && after.txs[first].phase == Committed(true) && after.txs[second].phase == Conflicted
      && Act(parts, after, Commit(second)).txs[second].phase == Committed(false)
  {
  }

  lemma RollbackBringsInsert(parts: seq<Partition>, start: Db, w: World, first: nat, second: nat)
    requires Race(parts, start, w, first, second)
    ensures
      var after := Act(parts, Act(parts, w, Rollback(first)), Insert(second));
      after.txs[first].phase == Aborted && after.txs[second].phase == Inserted
  {
  }

  /** Two deliveries of one key, the first holding the row: the second waits; once the first commits, the second
      is a conflict and so a duplicate; once the first is rolled back, the second inserts in its place. */
  lemma RaceResolved(parts: seq<Partition>, start: Db, w: World, first: nat, second: nat)
    requires Race(parts, start, w, first, second)
    ensures
      var waiting := Act(parts, w, Insert(second));
      var committed := Act(parts, Act(parts, waiting, Commit(first)), Insert(second));
      var rolledBack := Act(parts, Act(parts, waiting, Rollback(first)), Insert(second));
      && waiting == SetPhase(w, second, Waiting)
      && committed.txs[first].phase == Committed(true) && committed.txs[second].phase == Conflicted
      && Act(parts, committed, Commit(second)).txs[second].phase == Committed(false)
      && rolledBack.txs[first].phase == Aborted && rolledBack.txs[second].phase == Inserted
  {
    assert w.txs[first].Holds() && HeldByOther(w, second, KeyOf(w.txs[second].ev));
    InvStep(parts, start, w, Insert(second));
    CommitBringsConflict(parts, start, Act(parts, w, Insert(second)), first, second);
    RollbackBringsInsert(parts, start, Act(parts, w, Insert(second)), first, second);
  }

  // ---- no deadlock ----

  predicate Waits(tx: Tx) { tx.phase.Ready? || tx.phase.Waiting? }

  function Unfinished(txs: seq<Tx>): set<int> { set i | 0 <= i < |txs| && !txs[i].Finished() }

  lemma {:induction false} TraceConcat(parts: seq<Partition>, w: World, before: seq<Action>, after: seq<Action>)
    ensures Trace(parts, w, before + after) == Trace(parts, Trace(parts, w, before), after)
    decreases |after|
  {
    if |after| == 0 {
      assert before + after == before;
    } else {
      var n := |after| - 1;
      assert (before + after)[..|before| + n] == before + after[..n];
      TraceConcat(parts, w, before, after[..n]);
    }
  }

  /** The transaction as it ends: rolled back for want of a partition, otherwise committed; a finished one as it was. */
  ghost predicate EndsWell(parts: seq<Partition>, before: Tx, after: Tx) {
    if before.Finished() then after == before
    else
      && after.ev == before.ev
      && if Waits(before) && !Covered(parts, before.ev.occurredAt) then after.phase.Aborted?
         else after.phase.Committed?
  }

  ghost predicate Unblocked(w: World, i: int) {
    0 <= i < |w.txs| && !w.txs[i].Finished() && (w.txs[i].Holds() || !HeldByOther(w, i, KeyOf(w.txs[i].ev)))
  }

  /** Some unfinished transaction is not waiting for another. */
  lemma SomeUnblocked(w: World) returns (i: nat)
    requires Unfinished(w.txs) != {}
    ensures Unblocked(w, i)
  {
    if k :| 0 <= k < |w.txs| && w.txs[k].Holds() {
      i := k;
    } else {
      i :| i in Unfinished(w.txs);
      assert !HeldByOther(w, i, KeyOf(w.txs[i].ev));
    }
  }

  /** It can insert if it has not, write and commit, without any other transaction moving. */
  lemma FinishOne(parts: seq<Partition>, w: World, i: nat)
    requires Unblocked(w, i)
    ensures
      var after := Trace(parts, w, [Insert(i), Write(i, map[]), Commit(i)]);
      |after.txs| == |w.txs| && after.txs == w.txs[i := after.txs[i]] && EndsWell(parts, w.txs[i], after.txs[i])
  {
    var inserted := Act(parts, w, Insert(i));
    var written := Act(parts, inserted, Write(i, map[]));
    assert Trace(parts, w, []) == w;
    assert Trace(parts, w, [Insert(i)]) == inserted by { assert [Insert(i)][..0] == []; }
    assert Trace(parts, w, [Insert(i), Write(i, map[])]) == written by {
      assert [Insert(i), Write(i, map[])][..1] == [Insert(i)];
    }
    assert [Insert(i), Write(i, map[]), Commit(i)][..2] == [Insert(i), Write(i, map[])];
  }

  /** Every world can be brought to an end: some further actions finish every transaction, each that was not
      already finished by a commit, unless its insert was still to come and has no partition. */
  lemma {:induction false} NoDeadlock(parts: seq<Partition>, w: World) returns (actions: seq<Action>)
    ensures
      var after := Trace(parts, w, actions);
      |after.txs| == |w.txs| && forall i :: 0 <= i < |w.txs| ==> EndsWell(parts, w.txs[i], after.txs[i])
    decreases |Unfinished(w.txs)|
  {
    if Unfinished(w.txs) == {} {
      actions := [];
      assert forall i :: 0 <= i < |w.txs| && !w.txs[i].Finished() ==> i in Unfinished(w.txs);
    } else {
      var i := SomeUnblocked(w);
      var first := [Insert(i), Write(i, map[]), Commit(i)];
      FinishOne(parts, w, i);
      var next := Trace(parts, w, first);
      assert Unfinished(next.txs) == Unfinished(w.txs) - {i};
      assert i in Unfinished(w.txs);
      var rest := NoDeadlock(parts, next);
      TraceConcat(parts, w, first, rest);
      actions := first + rest;
    }
  }

  /** However deliveries have interleaved so far, they can be completed so that every event in flight that has a
      partition is in the tables, stored by exactly one transaction if it was not there at the start. */
  lemma {:induction false} EveryDeliveryCanBeStored(parts: seq<Partition>, start: Db, actions: seq<Action>)
    returns (more: seq<Action>)
    ensures
      var w, after := Trace(parts, World(start, [], []), actions), Trace(parts, World(start, [], []), actions + more);
      && |after.txs| == |w.txs|
      && forall i :: 0 <= i < |w.txs| ==>
           && EndsWell(parts, w.txs[i], after.txs[i])
           && (!w.txs[i].phase.Aborted? && Covered(parts, w.txs[i].ev.occurredAt) ==>
                 StoredOnce(start, after, KeyOf(w.txs[i].ev)))
  {
    var w := Trace(parts, World(start, [], []), actions);
    more := NoDeadlock(parts, w);
    TraceConcat(parts, World(start, [], []), actions, more);
    var after := Trace(parts, World(start, [], []), actions + more);
    Reachable(parts, start, actions + more);
    forall i | 0 <= i < |w.txs| && !w.txs[i].phase.Aborted? && Covered(parts, w.txs[i].ev.occurredAt)
      ensures StoredOnce(start, after, KeyOf(w.txs[i].ev))
    {
      assert EndsWell(parts, w.txs[i], after.txs[i]);
      InvMeansExactlyOnce(parts, start, after, KeyOf(w.txs[i].ev));
    }
  }

  /** The key is in the tables: from the start, or stored by exactly one transaction. */
  ghost predicate StoredOnce(start: Db, w: World, key: Key) {
    && key in w.db.events
    && (key !in start.events ==> exists i :: StoredBy(w, i, key) && forall k :: StoredBy(w, k, key) ==> k == i)
  }
}

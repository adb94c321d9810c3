/** Many deliveries in flight at once. Each moves through insert, effect, and commit or rollback; an
    insert whose key is held by an unfinished transaction waits. What an effect writes to the join
    table is left arbitrary, so the result does not depend on how effects interleave. */
module Concurrency {
  import opened Domain
  import opened JoinStore

  datatype Phase =
    | Ready
    | Waiting
    | Inserted
    | Effected(writes: map<Id, Join>)
    | Conflicted
    | Committed(stored: bool)
    | Aborted

  datatype Tx = Tx(ev: Event, phase: Phase) {
    /** Holds an uncommitted row of event_raw. */
    predicate Holds() { phase.Inserted? || phase.Effected? }

    predicate Finished() { phase.Committed? || phase.Aborted? }
  }

  /** One committed store, in commit order. */
  datatype Entry = Entry(tx: nat, ev: Event, writes: map<Id, Join>)

  datatype World = World(db: Db, txs: seq<Tx>, ledger: seq<Entry>)

  datatype Action =
    | Begin(ev: Event)
    | Insert(tx: nat)
    | Write(tx: nat, writes: map<Id, Join>)
    | Commit(tx: nat)
    | Rollback(tx: nat)

  predicate HeldByOther(w: World, tx: nat, key: Key) {
    exists k :: 0 <= k < |w.txs| && k != tx && w.txs[k].Holds() && KeyOf(w.txs[k].ev) == key
  }

  function Apply(db: Db, e: Entry): Db {
    Db(db.events[KeyOf(e.ev) := RowOf(e.ev)], db.joins + e.writes)
  }

  function SetPhase(w: World, tx: nat, phase: Phase): World
    requires tx < |w.txs|
  {
    w.(txs := w.txs[tx := w.txs[tx].(phase := phase)])
  }

  /** A transition; an action that is not enabled changes nothing. */
  function Act(parts: seq<Partition>, w: World, a: Action): World {
    match a
    case Begin(ev) => w.(txs := w.txs + [Tx(ev, Ready)])
    case Insert(i) =>
      if i < |w.txs| && (w.txs[i].phase.Ready? || w.txs[i].phase.Waiting?) then
        if !Covered(parts, w.txs[i].ev.occurredAt) then SetPhase(w, i, Aborted)
        else if HeldByOther(w, i, KeyOf(w.txs[i].ev)) then SetPhase(w, i, Waiting)
        else if KeyOf(w.txs[i].ev) in w.db.events then SetPhase(w, i, Conflicted)
        else SetPhase(w, i, Inserted)
      else w
    case Write(i, writes) =>
      if i < |w.txs| && w.txs[i].phase.Inserted? then SetPhase(w, i, Effected(writes)) else w
    case Commit(i) =>
      if i < |w.txs| && w.txs[i].phase.Effected? then
        var e := Entry(i, w.txs[i].ev, w.txs[i].phase.writes);
        SetPhase(w, i, Committed(true)).(db := Apply(w.db, e), ledger := w.ledger + [e])
      else if i < |w.txs| && w.txs[i].phase.Conflicted? then SetPhase(w, i, Committed(false))
      else w
    case Rollback(i) =>
      if i < |w.txs| && !w.txs[i].phase.Committed? then SetPhase(w, i, Aborted) else w
  }

  function Trace(parts: seq<Partition>, w: World, actions: seq<Action>): World {
    if |actions| == 0 then w else Act(parts, Trace(parts, w, actions[..|actions| - 1]), actions[|actions| - 1])
  }

  /** The tables after the ledger's stores, each applied once and in order. */
  function Replay(db: Db, ledger: seq<Entry>): Db {
    if |ledger| == 0 then db else Apply(Replay(db, ledger[..|ledger| - 1]), ledger[|ledger| - 1])
  }

  predicate StoredBy(w: World, tx: int, key: Key) {
    0 <= tx < |w.txs| && w.txs[tx].phase == Committed(true) && KeyOf(w.txs[tx].ev) == key
  }

  ghost predicate Recorded(txs: seq<Tx>, e: Entry) {
    e.tx < |txs| && txs[e.tx] == Tx(e.ev, Committed(true))
  }

  ghost predicate HasEntry(ledger: seq<Entry>, tx: nat) {
    exists n :: 0 <= n < |ledger| && ledger[n].tx == tx
  }

  ghost predicate KeyInLedger(ledger: seq<Entry>, key: Key) {
    exists n :: 0 <= n < |ledger| && KeyOf(ledger[n].ev) == key
  }

  /** At most one holder per key, whose key is not committed; conflicts and commits have theirs committed. */
  ghost predicate Locking(parts: seq<Partition>, txs: seq<Tx>, events: map<Key, EventRow>) {
    && (forall i, k :: 0 <= i < k < |txs| && txs[i].Holds() && txs[k].Holds() ==> KeyOf(txs[i].ev) != KeyOf(txs[k].ev))
    && (forall i :: 0 <= i < |txs| && txs[i].Holds() ==>
          KeyOf(txs[i].ev) !in events && Covered(parts, txs[i].ev.occurredAt))
    && (forall i :: 0 <= i < |txs| && (txs[i].phase.Conflicted? || txs[i].phase.Committed?) ==>
          KeyOf(txs[i].ev) in events)
  }

  /** The ledger lists exactly the transactions that committed with Stored = true. */
  ghost predicate Booked(txs: seq<Tx>, ledger: seq<Entry>) {
    && (forall i {:trigger HasEntry(ledger, i)} :: 0 <= i < |txs| && txs[i].phase == Committed(true) ==>
          HasEntry(ledger, i))
    && (forall n {:trigger Recorded(txs, ledger[n])} :: 0 <= n < |ledger| ==> Recorded(txs, ledger[n]))
  }

  /** The committed keys are the initial ones and the ledger's, each of those once. */
  ghost predicate Accounted(start: Db, events: map<Key, EventRow>, ledger: seq<Entry>) {
    && (forall n, m :: 0 <= n < m < |ledger| ==> KeyOf(ledger[n].ev) != KeyOf(ledger[m].ev))
    && (forall n :: 0 <= n < |ledger| ==> KeyOf(ledger[n].ev) in events && KeyOf(ledger[n].ev) !in start.events)
    && (forall key {:trigger KeyInLedger(ledger, key)} :: key in events && key !in start.events ==>
          KeyInLedger(ledger, key))
    && start.events.Keys <= events.Keys
  }

  ghost predicate Inv(parts: seq<Partition>, start: Db, w: World) {
    && Locking(parts, w.txs, w.db.events)
    && Booked(w.txs, w.ledger)
    && Accounted(start, w.db.events, w.ledger)
    && w.db == Replay(start, w.ledger)
  }

  lemma BookedPhase(txs: seq<Tx>, ledger: seq<Entry>, i: nat, phase: Phase)
    requires Booked(txs, ledger) && i < |txs| && !txs[i].phase.Committed? && phase != Committed(true)
    ensures Booked(txs[i := txs[i].(phase := phase)], ledger)
  {
    var txs' := txs[i := txs[i].(phase := phase)];
    forall k | 0 <= k < |txs'| && txs'[k].phase == Committed(true) ensures HasEntry(ledger, k) {
      assert txs'[k] == txs[k];
    }
    forall n | 0 <= n < |ledger| ensures Recorded(txs', ledger[n]) { assert Recorded(txs, ledger[n]); }
  }

  lemma InvPhase(parts: seq<Partition>, start: Db, w: World, i: nat, phase: Phase)
    requires Inv(parts, start, w) && i < |w.txs| && !w.txs[i].phase.Committed?
    requires phase != Committed(true)
    requires phase.Conflicted? || phase.Committed? ==> KeyOf(w.txs[i].ev) in w.db.events
    requires phase.Inserted? || phase.Effected? ==>
               && KeyOf(w.txs[i].ev) !in w.db.events && Covered(parts, w.txs[i].ev.occurredAt)
               && (w.txs[i].Holds() || !HeldByOther(w, i, KeyOf(w.txs[i].ev)))
    ensures Inv(parts, start, SetPhase(w, i, phase))
  {
    BookedPhase(w.txs, w.ledger, i, phase);
  }

  lemma BookedCommit(txs: seq<Tx>, ledger: seq<Entry>, i: nat, writes: map<Id, Join>)
    requires Booked(txs, ledger) && i < |txs| && !txs[i].phase.Committed?
    ensures Booked(txs[i := txs[i].(phase := Committed(true))], ledger + [Entry(i, txs[i].ev, writes)])
  {
    var txs', ledger' := txs[i := txs[i].(phase := Committed(true))], ledger + [Entry(i, txs[i].ev, writes)];
    forall k | 0 <= k < |txs'| && txs'[k].phase == Committed(true) ensures HasEntry(ledger', k) {
      if k == i {
        assert ledger'[|ledger|].tx == k;
      } else {
        assert txs'[k] == txs[k] && HasEntry(ledger, k);
        var m :| 0 <= m < |ledger| && ledger[m].tx == k;
        assert ledger'[m].tx == k;
      }
    }
    forall n | 0 <= n < |ledger'| ensures Recorded(txs', ledger'[n]) {
      if n < |ledger| { assert Recorded(txs, ledger[n]) && ledger'[n] == ledger[n]; }
    }
  }

  lemma AccountedCommit(start: Db, events: map<Key, EventRow>, ledger: seq<Entry>, e: Entry)
    requires Accounted(start, events, ledger) && KeyOf(e.ev) !in events
    ensures Accounted(start, events[KeyOf(e.ev) := RowOf(e.ev)], ledger + [e])
  {
    var events', ledger' := events[KeyOf(e.ev) := RowOf(e.ev)], ledger + [e];
    forall key | key in events' && key !in start.events ensures KeyInLedger(ledger', key) {
      if key == KeyOf(e.ev) {
        assert KeyOf(ledger'[|ledger|].ev) == key;
      } else {
        assert KeyInLedger(ledger, key);
        var m :| 0 <= m < |ledger| && KeyOf(ledger[m].ev) == key;
        assert ledger'[m] == ledger[m];
      }
    }
  }

  lemma InvCommit(parts: seq<Partition>, start: Db, w: World, i: nat)
    requires Inv(parts, start, w) && i < |w.txs| && w.txs[i].phase.Effected?
    ensures Inv(parts, start, Act(parts, w, Commit(i)))
  {
    var e := Entry(i, w.txs[i].ev, w.txs[i].phase.writes);
    assert w.txs[i].Holds();
    BookedCommit(w.txs, w.ledger, i, e.writes);
    AccountedCommit(start, w.db.events, w.ledger, e);
    assert (w.ledger + [e])[..|w.ledger|] == w.ledger;
  }

  lemma InvBegin(parts: seq<Partition>, start: Db, w: World, ev: Event)
    requires Inv(parts, start, w)
    ensures Inv(parts, start, Act(parts, w, Begin(ev)))
  {
    var txs' := w.txs + [Tx(ev, Ready)];
    forall k | 0 <= k < |txs'| && txs'[k].phase == Committed(true) ensures HasEntry(w.ledger, k) {
      assert txs'[k] == w.txs[k];
    }
    forall n | 0 <= n < |w.ledger| ensures Recorded(txs', w.ledger[n]) { assert Recorded(w.txs, w.ledger[n]); }
  }

  lemma InvInsert(parts: seq<Partition>, start: Db, w: World, i: nat)
    requires Inv(parts, start, w)
    ensures Inv(parts, start, Act(parts, w, Insert(i)))
  {
    if i < |w.txs| && (w.txs[i].phase.Ready? || w.txs[i].phase.Waiting?) {
      if !Covered(parts, w.txs[i].ev.occurredAt) { InvPhase(parts, start, w, i, Aborted); }
      else if HeldByOther(w, i, KeyOf(w.txs[i].ev)) { InvPhase(parts, start, w, i, Waiting); }
      else if KeyOf(w.txs[i].ev) in w.db.events { InvPhase(parts, start, w, i, Conflicted); }
      else { InvPhase(parts, start, w, i, Inserted); }
    }
  }

  lemma InvStep(parts: seq<Partition>, start: Db, w: World, a: Action)
    requires Inv(parts, start, w)
    ensures Inv(parts, start, Act(parts, w, a))
  {
    match a {
      case Begin(ev) => InvBegin(parts, start, w, ev);
      case Insert(i) => InvInsert(parts, start, w, i);
      case Write(i, writes) =>
        if i < |w.txs| && w.txs[i].phase.Inserted? { InvPhase(parts, start, w, i, Effected(writes)); }
      case Commit(i) =>
        if i < |w.txs| && w.txs[i].phase.Effected? { InvCommit(parts, start, w, i); }
        else if i < |w.txs| && w.txs[i].phase.Conflicted? { InvPhase(parts, start, w, i, Committed(false)); }
      case Rollback(i) =>
        if i < |w.txs| && !w.txs[i].phase.Committed? { InvPhase(parts, start, w, i, Aborted); }
    }
  }

  lemma {:induction false} Reachable(parts: seq<Partition>, start: Db, actions: seq<Action>)
    ensures Inv(parts, start, Trace(parts, World(start, [], []), actions))
    decreases |actions|
  {
    if |actions| == 0 {
    } else {
      Reachable(parts, start, actions[..|actions| - 1]);
      InvStep(parts, start, Trace(parts, World(start, [], []), actions[..|actions| - 1]), actions[|actions| - 1]);
    }
  }

  ghost predicate EntryFor(ledger: seq<Entry>, n: int, key: Key) {
    0 <= n < |ledger| && KeyOf(ledger[n].ev) == key
  }

  lemma StoredHasEntry(parts: seq<Partition>, start: Db, w: World, i: nat, key: Key) returns (n: nat)
    requires Inv(parts, start, w) && StoredBy(w, i, key)
    ensures EntryFor(w.ledger, n, key) && w.ledger[n].tx == i
  {
    assert HasEntry(w.ledger, i);
    n :| 0 <= n < |w.ledger| && w.ledger[n].tx == i;
    assert Recorded(w.txs, w.ledger[n]);
  }

  lemma EntryIsStored(parts: seq<Partition>, start: Db, w: World, n: nat, key: Key)
    requires Inv(parts, start, w) && EntryFor(w.ledger, n, key)
    ensures StoredBy(w, w.ledger[n].tx, key) && key !in start.events
  {
    assert Recorded(w.txs, w.ledger[n]);
  }

  lemma InvMeansExactlyOnce(parts: seq<Partition>, start: Db, w: World, key: Key)
    requires Inv(parts, start, w)
    ensures forall n, m :: EntryFor(w.ledger, n, key) && EntryFor(w.ledger, m, key) ==> n == m
    ensures forall i, k :: StoredBy(w, i, key) && StoredBy(w, k, key) ==> i == k
    ensures (exists n :: EntryFor(w.ledger, n, key)) <==> (exists i :: StoredBy(w, i, key))
    ensures key in start.events ==> forall i :: !StoredBy(w, i, key)
    ensures key !in start.events ==>
              ((exists i :: StoredBy(w, i, key)) <==>
               (exists i :: 0 <= i < |w.txs| && KeyOf(w.txs[i].ev) == key && w.txs[i].phase.Committed?))
  {
    forall i, k | StoredBy(w, i, key) && StoredBy(w, k, key) ensures i == k {
      var n := StoredHasEntry(parts, start, w, i, key);
      var m := StoredHasEntry(parts, start, w, k, key);
    }
    if i :| StoredBy(w, i, key) {
      var n := StoredHasEntry(parts, start, w, i, key);
      EntryIsStored(parts, start, w, n, key);
    }
    if n :| EntryFor(w.ledger, n, key) {
      EntryIsStored(parts, start, w, n, key);
    }
    if key !in start.events && exists i :: 0 <= i < |w.txs| && KeyOf(w.txs[i].ev) == key && w.txs[i].phase.Committed? {
      assert KeyInLedger(w.ledger, key);
      var n :| 0 <= n < |w.ledger| && KeyOf(w.ledger[n].ev) == key;
      EntryIsStored(parts, start, w, n, key);
    }
  }

  /** In every reachable state: as soon as any delivery of a new key has committed, exactly one of them
      committed with Stored = true, its effect is in the ledger exactly once, and the tables are what
      the ledger's effects, each applied once, produce. A key that was already there is never stored. */
  lemma ExactlyOnce(parts: seq<Partition>, start: Db, actions: seq<Action>, key: Key)
    ensures
      var w := Trace(parts, World(start, [], []), actions);
      && w.db == Replay(start, w.ledger)
      && (forall i, k :: StoredBy(w, i, key) && StoredBy(w, k, key) ==> i == k)
      && (forall n, m :: EntryFor(w.ledger, n, key) && EntryFor(w.ledger, m, key) ==> n == m)
      && ((exists n :: EntryFor(w.ledger, n, key)) <==> (exists i :: StoredBy(w, i, key)))
      && (key in start.events ==> forall i :: !StoredBy(w, i, key))
      && (key !in start.events ==>
            ((exists i :: StoredBy(w, i, key)) <==>
             (exists i :: 0 <= i < |w.txs| && KeyOf(w.txs[i].ev) == key && w.txs[i].phase.Committed?)))
  {
    Reachable(parts, start, actions);
    InvMeansExactlyOnce(parts, start, Trace(parts, World(start, [], []), actions), key);
  }

  // ---- relation to the sequential store ----

  /** Each store's writes are what its event does to the joins committed before it. */
  ghost predicate Serial(parts: seq<Partition>, start: Db, ledger: seq<Entry>, hints: seq<Id>)
    requires |hints| == |ledger|
  {
    |ledger| == 0 ||
    var n := |ledger| - 1;
    Serial(parts, start, ledger[..n], hints[..n]) && SerialAt(parts, Replay(start, ledger[..n]), ledger[n], hints[n])
  }

  ghost predicate SerialAt(parts: seq<Partition>, db: Db, e: Entry, hint: Id) {
    && Covered(parts, e.ev.occurredAt)
    && JoinEffect(db.joins, e.ev, hint).Applied?
    && JoinEffect(db.joins, e.ev, hint).joins == db.joins + e.writes
  }

  function Deliveries(ledger: seq<Entry>, hints: seq<Id>): (ds: seq<Delivery>)
    requires |hints| == |ledger|
  {
    if |ledger| == 0 then []
    else
      var n := |ledger| - 1;
      Deliveries(ledger[..n], hints[..n]) + [Delivery(ledger[n].ev, hints[n], NoFault)]
  }

  lemma {:induction false} ReplayKeys(start: Db, ledger: seq<Entry>, key: Key)
    requires key in Replay(start, ledger).events
    ensures key in start.events || KeyInLedger(ledger, key)
    decreases |ledger|
  {
    if |ledger| == 0 {
    } else {
      var n := |ledger| - 1;
      if key != KeyOf(ledger[n].ev) {
        ReplayKeys(start, ledger[..n], key);
        if KeyInLedger(ledger[..n], key) {
          var m :| 0 <= m < n && KeyOf(ledger[..n][m].ev) == key;
          assert ledger[m] == ledger[..n][m];
        }
      }
    }
  }

  lemma SerialStep(parts: seq<Partition>, db: Db, e: Entry, hint: Id)
    requires SerialAt(parts, db, e, hint) && KeyOf(e.ev) !in db.events
    ensures Step(parts, db, Delivery(e.ev, hint, NoFault)).0 == Apply(db, e)
  {
  }

  ghost predicate FreshKeys(start: Db, ledger: seq<Entry>) {
    && (forall n, m :: 0 <= n < m < |ledger| ==> KeyOf(ledger[n].ev) != KeyOf(ledger[m].ev))
    && (forall n :: 0 <= n < |ledger| ==> KeyOf(ledger[n].ev) !in start.events)
  }

  lemma LastKeyFresh(start: Db, ledger: seq<Entry>)
    requires |ledger| > 0 && FreshKeys(start, ledger)
    ensures KeyOf(ledger[|ledger| - 1].ev) !in Replay(start, ledger[..|ledger| - 1]).events
  {
    var n := |ledger| - 1;
    var key := KeyOf(ledger[n].ev);
    assert !KeyInLedger(ledger[..n], key);
    if key in Replay(start, ledger[..n]).events {
      ReplayKeys(start, ledger[..n], key);
    }
  }

  lemma {:induction false} SerialReplay(parts: seq<Partition>, start: Db, ledger: seq<Entry>, hints: seq<Id>)
    requires |hints| == |ledger| && Serial(parts, start, ledger, hints) && FreshKeys(start, ledger)
    ensures Replay(start, ledger) == After(parts, start, Deliveries(ledger, hints))
    decreases |ledger|
  {
    if |ledger| == 0 {
    } else {
      var n := |ledger| - 1;
      var e, before, ds := ledger[n], ledger[..n], Deliveries(ledger[..n], hints[..n]);
      var d := Delivery(e.ev, hints[n], NoFault);
      SerialReplay(parts, start, before, hints[..n]);
      LastKeyFresh(start, ledger);
      SerialStep(parts, Replay(start, before), e, hints[n]);
      AfterConcat(parts, start, ds, [d]);
      assert After(parts, After(parts, start, ds), [d]) == Step(parts, After(parts, start, ds), d).0;
    }
  }

  // ---- schedules whose effects do not interleave ----

  /** The action keeps effects apart: a transaction writes what its event does to the joins committed at that
      moment, and none commits a store while another has written. */
  ghost predicate Apart(w: World, a: Action) {
    match a
    case Write(i, writes) =>
      i < |w.txs| && w.txs[i].phase.Inserted? ==> exists hint :: WritesEffect(w.db.joins, w.txs[i].ev, writes, hint)
    case Commit(i) =>
      i < |w.txs| && w.txs[i].phase.Effected? ==> forall k :: 0 <= k < |w.txs| && k != i ==> !w.txs[k].phase.Effected?
    case _ => true
  }

  ghost predicate WritesEffect(joins: map<Id, Join>, ev: Event, writes: map<Id, Join>, hint: Id) {
    JoinEffect(joins, ev, hint).Applied? && JoinEffect(joins, ev, hint).joins == joins + writes
  }

  /** Every action of the schedule does. */
  ghost predicate NotInterleaved(parts: seq<Partition>, start: Db, actions: seq<Action>) {
    |actions| == 0 ||
    var n := |actions| - 1;
    && NotInterleaved(parts, start, actions[..n])
    && Apart(Trace(parts, World(start, [], []), actions[..n]), actions[n])
  }

  /** A transaction that has written holds what its event does to the joins committed now. */
  ghost predicate Current(w: World) {
    forall i :: 0 <= i < |w.txs| && w.txs[i].phase.Effected? ==>
      exists hint :: WritesEffect(w.db.joins, w.txs[i].ev, w.txs[i].phase.writes, hint)
  }

  lemma CurrentStep(parts: seq<Partition>, start: Db, w: World, a: Action)
    requires Inv(parts, start, w) && Current(w) && Apart(w, a)
    ensures Current(Act(parts, w, a))
  {
  }

  /** A storing commit adds one serial entry to the ledger; no other action changes it. */
  lemma SerialGrows(parts: seq<Partition>, start: Db, w: World, a: Action, hints: seq<Id>) returns (hints': seq<Id>)
    requires Inv(parts, start, w) && Current(w) && |hints| == |w.ledger| && Serial(parts, start, w.ledger, hints)
    ensures |hints'| == |Act(parts, w, a).ledger| && Serial(parts, start, Act(parts, w, a).ledger, hints')
  {
    hints' := hints;
    if a.Commit? && a.tx < |w.txs| && w.txs[a.tx].phase.Effected? {
      var tx := w.txs[a.tx];
      var hint :| WritesEffect(w.db.joins, tx.ev, tx.phase.writes, hint);
      var e := Entry(a.tx, tx.ev, tx.phase.writes);
      hints' := hints + [hint];
      assert tx.Holds();
      assert SerialAt(parts, Replay(start, w.ledger), e, hint);
      assert (w.ledger + [e])[..|w.ledger|] == w.ledger && hints'[..|w.ledger|] == hints;
    }
  }

  lemma {:induction false} ScheduleIsSerial(parts: seq<Partition>, start: Db, actions: seq<Action>)
    returns (hints: seq<Id>)
    requires NotInterleaved(parts, start, actions)
    ensures
      var w := Trace(parts, World(start, [], []), actions);
      Current(w) && |hints| == |w.ledger| && Serial(parts, start, w.ledger, hints)
    decreases |actions|
  {
    if |actions| == 0 {
      hints := [];
    } else {
      var n := |actions| - 1;
      var w := Trace(parts, World(start, [], []), actions[..n]);
      var before := ScheduleIsSerial(parts, start, actions[..n]);
      Reachable(parts, start, actions[..n]);
      CurrentStep(parts, start, w, actions[n]);
      hints := SerialGrows(parts, start, w, actions[n], before);
    }
  }

  /** When a schedule keeps effects apart, the tables are those of running the stored deliveries one after
      another in commit order, for some choice of ties; so everything proved of runs holds of it. */
  lemma {:induction false} SerialExecutionsAreRuns(parts: seq<Partition>, start: Db, actions: seq<Action>)
    returns (hints: seq<Id>)
    requires NotInterleaved(parts, start, actions)
    ensures
      var w := Trace(parts, World(start, [], []), actions);
      |hints| == |w.ledger| && w.db == After(parts, start, Deliveries(w.ledger, hints))
  {
    hints := ScheduleIsSerial(parts, start, actions);
    Reachable(parts, start, actions);
    SerialReplay(parts, start, Trace(parts, World(start, [], []), actions).ledger, hints);
  }

  // ---- every run is a schedule ----

  ghost predicate AllFinished(txs: seq<Tx>) {
    forall k :: 0 <= k < |txs| ==> txs[k].Finished()
  }

  /** How a transaction ends whose delivery has this outcome. */
  function Ending(outcome: Outcome): Phase {
    if outcome.Ok? then Committed(outcome.result.stored) else Aborted
  }

  /** The schedule keeps effects apart and leads to `w`. */
  ghost predicate Schedules(parts: seq<Partition>, start: Db, actions: seq<Action>, w: World) {
    NotInterleaved(parts, start, actions) && Trace(parts, World(start, [], []), actions) == w
  }

  lemma Extend(parts: seq<Partition>, start: Db, actions: seq<Action>, w: World, a: Action)
    requires Schedules(parts, start, actions, w) && Apart(w, a)
    ensures Schedules(parts, start, actions + [a], Act(parts, w, a))
  {
  }

  /** One more transaction, for `ev`, in some phase. */
  function With(w: World, ev: Event, phase: Phase): World { w.(txs := w.txs + [Tx(ev, phase)]) }

  lemma InsertAlone(parts: seq<Partition>, w: World, ev: Event)
    requires AllFinished(w.txs)
    ensures Act(parts, With(w, ev, Ready), Insert(|w.txs|)) ==
            With(w, ev,
                 if !Covered(parts, ev.occurredAt) then Aborted
                 else if KeyOf(ev) in w.db.events then Conflicted else Inserted)
  {
  }

  lemma SetLast(w: World, ev: Event, before: Phase, after: Phase)
    ensures SetPhase(With(w, ev, before), |w.txs|, after) == With(w, ev, after)
  {
  }

  lemma CommitAlone(parts: seq<Partition>, w: World, ev: Event, writes: map<Id, Join>)
    ensures
      var e := Entry(|w.txs|, ev, writes);
      Act(parts, With(w, ev, Effected(writes)), Commit(|w.txs|)) ==
      With(World(Apply(w.db, e), w.txs, w.ledger + [e]), ev, Committed(true))
    ensures Act(parts, With(w, ev, Conflicted), Commit(|w.txs|)) == With(w, ev, Committed(false))
  {
  }

  lemma EffectKeepsRows(joins: map<Id, Join>, ev: Event, hint: Id)
    requires JoinEffect(joins, ev, hint).Applied?
    ensures joins + JoinEffect(joins, ev, hint).joins == JoinEffect(joins, ev, hint).joins
  {
  }

  /** A delivery alone: it begins and tries to insert. */
  lemma BeginAlone(parts: seq<Partition>, start: Db, actions: seq<Action>, w: World, ev: Event)
    returns (more: seq<Action>)
    requires Schedules(parts, start, actions, w) && AllFinished(w.txs)
    ensures Schedules(parts, start, more, Act(parts, With(w, ev, Ready), Insert(|w.txs|)))
  {
    Extend(parts, start, actions, w, Begin(ev));
    Extend(parts, start, actions + [Begin(ev)], With(w, ev, Ready), Insert(|w.txs|));
    more := actions + [Begin(ev)] + [Insert(|w.txs|)];
  }

  /** It inserted: it writes its effect on the committed joins and commits. */
  lemma StoreAlone(parts: seq<Partition>, start: Db, actions: seq<Action>, w: World, d: Delivery)
    returns (more: seq<Action>, next: World)
    requires Schedules(parts, start, actions, With(w, d.ev, Inserted)) && AllFinished(w.txs)
    requires Stores(parts, w.db, d)
    ensures Schedules(parts, start, more, next)
    ensures next.db == Step(parts, w.db, d).0 && next.txs == w.txs + [Tx(d.ev, Committed(true))]
  {
    var i, effect := |w.txs|, JoinEffect(w.db.joins, d.ev, d.hint);
    StoringStep(parts, w.db, d);
    EffectKeepsRows(w.db.joins, d.ev, d.hint);
    assert WritesEffect(w.db.joins, d.ev, effect.joins, d.hint);
    Extend(parts, start, actions, With(w, d.ev, Inserted), Write(i, effect.joins));
    SetLast(w, d.ev, Inserted, Effected(effect.joins));
    var written := actions + [Write(i, effect.joins)];
    Extend(parts, start, written, With(w, d.ev, Effected(effect.joins)), Commit(i));
    CommitAlone(parts, w, d.ev, effect.joins);
    more := written + [Commit(i)];
    next := Act(parts, With(w, d.ev, Effected(effect.joins)), Commit(i));
  }

  /** A delivery by itself ends as its outcome says, with the tables its step leaves. */
  lemma DeliverAlone(parts: seq<Partition>, start: Db, actions: seq<Action>, w: World, d: Delivery)
    returns (more: seq<Action>, next: World)
    requires Schedules(parts, start, actions, w) && AllFinished(w.txs)
    ensures Schedules(parts, start, more, next)
    ensures next.db == Step(parts, w.db, d).0 && next.txs == w.txs + [Tx(d.ev, Ending(Step(parts, w.db, d).1))]
  {
    var i, outcome := |w.txs|, Step(parts, w.db, d).1;
    more := BeginAlone(parts, start, actions, w, d.ev);
    InsertAlone(parts, w, d.ev);
    StoringStep(parts, w.db, d);
    if Stores(parts, w.db, d) {
      more, next := StoreAlone(parts, start, more, w, d);
    } else if outcome.Ok? {
      Extend(parts, start, more, With(w, d.ev, Conflicted), Commit(i));
      CommitAlone(parts, w, d.ev, map[]);
      more, next := more + [Commit(i)], With(w, d.ev, Committed(false));
    } else if outcome.error.PartitionMissing? {
      next := With(w, d.ev, Aborted);
    } else {
      var inserted := Act(parts, With(w, d.ev, Ready), Insert(i));
      Extend(parts, start, more, inserted, Rollback(i));
      SetLast(w, d.ev, inserted.txs[i].phase, Aborted);
      more, next := more + [Rollback(i)], With(w, d.ev, Aborted);
    }
  }

  /** Transaction `i` is for delivery `i` and ended as its outcome says. */
  ghost predicate EndAs(txs: seq<Tx>, ds: seq<Delivery>, outcomes: seq<Outcome>)
    requires |outcomes| == |ds|
  {
    |txs| == |ds| && forall i :: 0 <= i < |ds| ==> txs[i] == Tx(ds[i].ev, Ending(outcomes[i]))
  }

  lemma EndAsSnoc(txs: seq<Tx>, ds: seq<Delivery>, outcomes: seq<Outcome>)
    requires |ds| > 0 && |outcomes| == |ds| && EndAs(txs, ds[..|ds| - 1], outcomes[..|ds| - 1])
    ensures EndAs(txs + [Tx(ds[|ds| - 1].ev, Ending(outcomes[|ds| - 1]))], ds, outcomes)
  {
  }

  /** Conversely every run of the store is a schedule that keeps effects apart: it ends with the run's tables,
      and its transactions commit, with Stored as the store reports it, exactly where the outcome is no error. */
  lemma {:induction false} RunsAreSchedules(parts: seq<Partition>, start: Db, ds: seq<Delivery>)
    returns (actions: seq<Action>)
    ensures NotInterleaved(parts, start, actions)
    ensures
      var w := Trace(parts, World(start, [], []), actions);
      w.db == After(parts, start, ds) && EndAs(w.txs, ds, Outcomes(parts, start, ds))
    decreases |ds|
  {
    if |ds| == 0 {
      actions := [];
    } else {
      var n := |ds| - 1;
      var before := RunsAreSchedules(parts, start, ds[..n]);
      var w, next := Trace(parts, World(start, [], []), before), World(start, [], []);
      actions, next := DeliverAlone(parts, start, before, w, ds[n]);
      AfterLast(parts, start, ds);
      OutcomeAt(parts, start, ds, n);
      OutcomesOfPrefix(parts, start, ds, n);
      EndAsSnoc(w.txs, ds, Outcomes(parts, start, ds));
    }
  }
}

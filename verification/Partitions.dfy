/** The bootstrap loop that creates daily partitions (migration 000002), and what it means for intake. */
module Partitions {
  import opened Domain
  import opened JoinStore

  ghost predicate StrictlyMonotone(instant: int -> Instant) {
    forall a, b :: a < b ==> instant(a) < instant(b)
  }

  /** Consecutive daily ranges from day `first`, each ending where the next begins. */
  ghost predicate Daily(parts: seq<Partition>, first: int, instant: int -> Instant) {
    forall i :: 0 <= i < |parts| ==> parts[i] == Partition(instant(first + i), instant(first + i + 1))
  }

  predicate Disjoint(p: Partition, q: Partition) { p.to <= q.from || q.to <= p.from }

  ghost predicate Tiles(parts: seq<Partition>, from: Instant, to: Instant) {
    && (forall i, k :: 0 <= i < k < |parts| ==> Disjoint(parts[i], parts[k]))
    && (forall t :: Covered(parts, t) <==> from <= t < to)
  }

  /** Some of the first `n` days holds any instant between their ends. */
  lemma {:induction false} SomeDayHolds(parts: seq<Partition>, first: int, instant: int -> Instant, n: nat, t: Instant)
    requires Daily(parts, first, instant) && n <= |parts| && instant(first) <= t < instant(first + n)
    ensures Covered(parts, t)
    decreases n
  {
    if n == 0 {
    } else {
      if instant(first + n - 1) <= t {
        assert parts[n - 1].from <= t < parts[n - 1].to;
      } else {
        SomeDayHolds(parts, first, instant, n - 1, t);
      }
    }
  }

  lemma DailyCovers(parts: seq<Partition>, first: int, instant: int -> Instant, t: Instant)
    requires StrictlyMonotone(instant) && Daily(parts, first, instant)
    ensures Covered(parts, t) <==> instant(first) <= t < instant(first + |parts|)
  {
    if instant(first) <= t < instant(first + |parts|) {
      SomeDayHolds(parts, first, instant, |parts|, t);
    }
    if i :| 0 <= i < |parts| && parts[i].from <= t < parts[i].to {
      assert instant(first) <= instant(first + i);
      assert instant(first + i + 1) <= instant(first + |parts|);
    }
  }

  lemma DailyTiles(parts: seq<Partition>, first: int, instant: int -> Instant)
    requires StrictlyMonotone(instant) && Daily(parts, first, instant)
    ensures Tiles(parts, instant(first), instant(first + |parts|))
  {
    forall t ensures Covered(parts, t) <==> instant(first) <= t < instant(first + |parts|) {
      DailyCovers(parts, first, instant, t);
    }
    forall i, k | 0 <= i < k < |parts| ensures Disjoint(parts[i], parts[k]) {
      assert instant(first + i + 1) <= instant(first + k);
    }
  }

  /** The WHILE loop: one partition per day from a week back to a fortnight ahead. */
  method Bootstrap(today: int, instant: int -> Instant) returns (parts: seq<Partition>)
    requires StrictlyMonotone(instant)
    ensures Tiles(parts, instant(today - 7), instant(today + 14))
    ensures |parts| == 21
    ensures forall i :: 0 <= i < 21 ==> parts[i] == Partition(instant(today - 7 + i), instant(today - 7 + i + 1))
  {
    var startDay, endDay := today - 7, today + 14;
    var day := startDay;
    parts := [];
    while day < endDay
      invariant startDay <= day <= endDay
      invariant |parts| == day - startDay
      invariant Daily(parts, startDay, instant)
    {
      parts := parts + [Partition(instant(day), instant(day + 1))];
      day := day + 1;
    }
    DailyTiles(parts, startDay, instant);
  }

  /** An event with a new key is lost to a missing partition exactly when it lies outside the window,
      and then neither table changes. */
  lemma LostExactlyOutsideWindow(parts: seq<Partition>, from: Instant, to: Instant, db: Db, d: Delivery)
    requires Tiles(parts, from, to) && KeyOf(d.ev) !in db.events
    requires !d.fault.AtBegin? && !d.fault.AtInsert?
    ensures Step(parts, db, d).1 == Err(PartitionMissing) <==> !(from <= d.ev.occurredAt < to)
    ensures Step(parts, db, d).1 == Err(PartitionMissing) ==> Step(parts, db, d).0 == db
  {
  }
}

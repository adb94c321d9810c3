/** Read-time session grouping (benchmarks/reference_query.sql): lag, running sum and GROUP BY over the
    joins of one participant in one room, in one fixed order sorted by started_at. */
module Grouping {
  import opened Domain

  predicate Sorted(rows: seq<Join>) {
    forall i, k :: 0 <= i < k < |rows| ==> rows[i].startedAt <= rows[k].startedAt
  }

  // ---- the query, window by window ----

  /** started_at - lag(ended_at): NULL for the first row and after an open join. */
  function Gap(rows: seq<Join>, i: nat): Option<int>
    requires i < |rows|
  {
    if i == 0 || rows[i - 1].endedAt.None? then None else Some(rows[i].startedAt - rows[i - 1].endedAt.value)
  }

  function IsNew(rows: seq<Join>, i: nat, gap: int): int
    requires i < |rows|
  {
    if Gap(rows, i).None? || Gap(rows, i).value > gap then 1 else 0
  }

  /** sum(is_new) OVER (... ROWS UNBOUNDED PRECEDING). */
  function Ordinal(rows: seq<Join>, i: nat, gap: int): int
    requires i < |rows|
  {
    (if i == 0 then 0 else Ordinal(rows, i - 1, gap)) + IsNew(rows, i, gap)
  }

  /** The rows GROUP BY session_ordinal puts under `o`, in order, among the first `n`. */
  function Group(rows: seq<Join>, n: nat, gap: int, o: int): seq<Join>
    requires n <= |rows|
  {
    if n == 0 then []
    else Group(rows, n - 1, gap, o) + (if Ordinal(rows, n - 1, gap) == o then [rows[n - 1]] else [])
  }

  // ---- the definition it refines ----

  /** `b` continues the session of `a`: `a` has ended and `b` began within the threshold of that end. */
  predicate Linked(a: Join, b: Join, gap: int) {
    a.endedAt.Some? && b.startedAt - a.endedAt.value <= gap
  }

  predicate LinkedAt(rows: seq<Join>, m: int, gap: int) {
    0 < m < |rows| && Linked(rows[m - 1], rows[m], gap)
  }

  /** Every consecutive pair from `i` to `k` is linked. */
  ghost predicate Unbroken(rows: seq<Join>, i: nat, k: nat, gap: int)
    requires i <= k < |rows|
  {
    forall m :: i < m <= k ==> LinkedAt(rows, m, gap)
  }

  /** Sessions by walking the joins: a linked join extends the last session, any other starts one. */
  function Sessions(rows: seq<Join>, n: nat, gap: int): (ss: seq<seq<Join>>)
    requires n <= |rows|
    ensures n > 0 ==> |ss| > 0
    ensures forall i :: 0 <= i < |ss| ==> |ss[i]| > 0
  {
    if n == 0 then []
    else
      var before := Sessions(rows, n - 1, gap);
      if n > 1 && Linked(rows[n - 2], rows[n - 1], gap)
      then before[|before| - 1 := before[|before| - 1] + [rows[n - 1]]]
      else before + [[rows[n - 1]]]
  }

  // ---- ordinals ----

  lemma {:induction false} OrdinalsAscend(rows: seq<Join>, i: nat, k: nat, gap: int)
    requires i <= k < |rows|
    ensures 1 <= Ordinal(rows, i, gap) <= Ordinal(rows, k, gap)
    decreases k
  {
    if i < k {
      OrdinalsAscend(rows, i, k - 1, gap);
    } else if k > 0 {
      OrdinalsAscend(rows, k - 1, k - 1, gap);
    }
  }

  /** Two rows share an ordinal exactly when every consecutive pair between them is linked. */
  lemma {:induction false} SameOrdinalIffUnbroken(rows: seq<Join>, i: nat, k: nat, gap: int)
    requires i <= k < |rows|
    ensures Ordinal(rows, i, gap) == Ordinal(rows, k, gap) <==> Unbroken(rows, i, k, gap)
    decreases k
  {
    if i == k {
    } else {
      SameOrdinalIffUnbroken(rows, i, k - 1, gap);
      OrdinalsAscend(rows, i, k - 1, gap);
      assert Unbroken(rows, i, k, gap) <==> Unbroken(rows, i, k - 1, gap) && LinkedAt(rows, k, gap);
      assert IsNew(rows, k, gap) == 0 <==> LinkedAt(rows, k, gap);
    }
  }

  /** Ordinals start at 1 and leave no gap. */
  lemma {:induction false} OrdinalsGapless(rows: seq<Join>, k: nat, gap: int, o: int)
    requires k < |rows| && 1 <= o <= Ordinal(rows, k, gap)
    ensures exists i :: 0 <= i <= k && Ordinal(rows, i, gap) == o
    decreases k
  {
    if Ordinal(rows, k, gap) != o && k > 0 {
      OrdinalsGapless(rows, k - 1, gap, o);
    }
  }

  // ---- the groups are the sessions ----

  ghost predicate GroupsAre(rows: seq<Join>, n: nat, gap: int, ss: seq<seq<Join>>)
    requires n <= |rows|
  {
    && |ss| == (if n == 0 then 0 else Ordinal(rows, n - 1, gap))
    && (forall o :: 1 <= o <= |ss| ==> Group(rows, n, gap, o) == ss[o - 1])
    && (forall o :: o < 1 || o > |ss| ==> Group(rows, n, gap, o) == [])
    && (n > 0 ==> |ss| > 0)
  }

  lemma {:induction false} GroupsAreSessions(rows: seq<Join>, n: nat, gap: int)
    requires n <= |rows|
    ensures GroupsAre(rows, n, gap, Sessions(rows, n, gap))
    decreases n
  {
    if n > 0 {
      var before, after := Sessions(rows, n - 1, gap), Sessions(rows, n, gap);
      GroupsAreSessions(rows, n - 1, gap);
      var last := Ordinal(rows, n - 1, gap);
      if n > 1 && Linked(rows[n - 2], rows[n - 1], gap) {
        assert IsNew(rows, n - 1, gap) == 0;
        assert last == |before|;
      } else {
        assert IsNew(rows, n - 1, gap) == 1;
        assert last == |before| + 1;
      }
      forall o | 1 <= o <= |after| ensures Group(rows, n, gap, o) == after[o - 1] {
        if o == last {
          assert Group(rows, n, gap, o) == Group(rows, n - 1, gap, o) + [rows[n - 1]];
        } else {
          assert Group(rows, n, gap, o) == Group(rows, n - 1, gap, o);
        }
      }
      forall o | o < 1 || o > |after| ensures Group(rows, n, gap, o) == [] {
        assert Group(rows, n, gap, o) == Group(rows, n - 1, gap, o);
      }
    }
  }

  // ---- shape of the sessions ----

  function Concat(ss: seq<seq<Join>>): seq<Join> {
    if |ss| == 0 then [] else Concat(ss[..|ss| - 1]) + ss[|ss| - 1]
  }

  /** The sessions partition the joins: laid end to end they are the joins, in order. */
  lemma {:induction false} SessionsPartition(rows: seq<Join>, n: nat, gap: int)
    requires n <= |rows|
    ensures Concat(Sessions(rows, n, gap)) == rows[..n]
    decreases n
  {
    if n > 0 {
      var before, after := Sessions(rows, n - 1, gap), Sessions(rows, n, gap);
      SessionsPartition(rows, n - 1, gap);
      assert rows[..n] == rows[..n - 1] + [rows[n - 1]];
      if n > 1 && Linked(rows[n - 2], rows[n - 1], gap) {
        assert after[..|after| - 1] == before[..|before| - 1];
      } else {
        assert after[..|after| - 1] == before;
      }
    }
  }

  /** A run of joins each linked to the one before. */
  ghost predicate Chain(s: seq<Join>, gap: int) {
    forall m :: 0 < m < |s| ==> LinkedAt(s, m, gap)
  }

  lemma ChainGrows(s: seq<Join>, j: Join, gap: int)
    requires Chain(s, gap) && |s| > 0 && Linked(s[|s| - 1], j, gap)
    ensures Chain(s + [j], gap)
  {
    forall m | 0 < m < |s + [j]| ensures LinkedAt(s + [j], m, gap) {
      assert m < |s| ==> LinkedAt(s, m, gap);
    }
  }

  /** Each session is a chain, no session can be extended by the next join, and the last one ends at the last join. */
  lemma {:induction false} SessionsMaximal(rows: seq<Join>, n: nat, gap: int)
    requires n <= |rows|
    ensures
      var ss := Sessions(rows, n, gap);
      && (forall i :: 0 <= i < |ss| ==> Chain(ss[i], gap))
      && (forall i :: 0 < i < |ss| ==> !Linked(ss[i - 1][|ss[i - 1]| - 1], ss[i][0], gap))
      && (n > 0 ==> ss[|ss| - 1][|ss[|ss| - 1]| - 1] == rows[n - 1])
    decreases n
  {
    if n == 0 {
    } else {
      var before, after := Sessions(rows, n - 1, gap), Sessions(rows, n, gap);
      SessionsMaximal(rows, n - 1, gap);
      if n > 1 && Linked(rows[n - 2], rows[n - 1], gap) {
        var last := before[|before| - 1];
        ChainGrows(last, rows[n - 1], gap);
        assert forall i :: 0 <= i < |before| - 1 ==> after[i] == before[i];
        assert after[|after| - 1][0] == last[0];
      } else {
        assert forall i :: 0 <= i < |before| ==> after[i] == before[i];
        assert Chain([rows[n - 1]], gap);
      }
    }
  }

  // ---- the aggregates ----

  function MinStart(s: seq<Join>): Instant
    requires |s| > 0
  {
    if |s| == 1 then s[0].startedAt
    else
      var rest, last := MinStart(s[..|s| - 1]), s[|s| - 1].startedAt;
      if last < rest then last else rest
  }

  /** bool_or(ended_at IS NULL). */
  predicate AnyOpen(s: seq<Join>) {
    exists i :: 0 <= i < |s| && s[i].IsOpen()
  }

  lemma {:induction false} MinIsFirst(s: seq<Join>)
    requires |s| > 0 && Sorted(s)
    ensures MinStart(s) == s[0].startedAt
    decreases |s|
  {
    if |s| == 1 {
    } else {
      MinIsFirst(s[..|s| - 1]);
    }
  }

  /** In a chain only the last join can be open, so the aggregates are the Session accessors. */
  lemma AggregatesAreAccessors(s: seq<Join>, gap: int)
    requires |s| > 0 && Sorted(s) && Chain(s, gap)
    ensures
      var session := Session(gap, s);
      && MinStart(s) == session.StartedAt()
      && (AnyOpen(s) <==> session.IsOpen())
      && |s| - 1 == session.Reconnects()
      && forall i :: 0 <= i < |s| - 1 ==> !s[i].IsOpen()
  {
    MinIsFirst(s);
    forall i | 0 <= i < |s| - 1 ensures !s[i].IsOpen() {
      assert LinkedAt(s, i + 1, gap);
    }
  }

  function TotalReconnects(ss: seq<seq<Join>>, gap: int): int {
    if |ss| == 0 then 0 else TotalReconnects(ss[..|ss| - 1], gap) + Session(gap, ss[|ss| - 1]).Reconnects()
  }

  lemma {:induction false} ReconnectsOf(ss: seq<seq<Join>>, gap: int)
    ensures |Concat(ss)| == |ss| + TotalReconnects(ss, gap)
    decreases |ss|
  {
    if |ss| == 0 {
    } else {
      ReconnectsOf(ss[..|ss| - 1], gap);
    }
  }

  /** Joins are sessions plus reconnects. */
  lemma JoinsAreSessionsPlusReconnects(rows: seq<Join>, gap: int)
    ensures |rows| == |Sessions(rows, |rows|, gap)| + TotalReconnects(Sessions(rows, |rows|, gap), gap)
  {
    SessionsPartition(rows, |rows|, gap);
    assert rows[..|rows|] == rows;
    ReconnectsOf(Sessions(rows, |rows|, gap), gap);
  }

  // ---- thresholds ----

  lemma {:induction false} FewerOrdinals(rows: seq<Join>, i: nat, g1: int, g2: int)
    requires i < |rows| && g1 <= g2
    ensures Ordinal(rows, i, g2) <= Ordinal(rows, i, g1)
    decreases i
  {
    if i == 0 {
    } else {
      FewerOrdinals(rows, i - 1, g1, g2);
    }
  }

  /** A larger threshold only merges: joins together at g1 stay together at g2, and there are no more sessions. */
  lemma ThresholdMonotone(rows: seq<Join>, g1: int, g2: int)
    requires g1 <= g2
    ensures forall i, k :: 0 <= i <= k < |rows| && Ordinal(rows, i, g1) == Ordinal(rows, k, g1) ==>
              Ordinal(rows, i, g2) == Ordinal(rows, k, g2)
    ensures |Sessions(rows, |rows|, g2)| <= |Sessions(rows, |rows|, g1)|
  {
    forall i, k | 0 <= i <= k < |rows| && Ordinal(rows, i, g1) == Ordinal(rows, k, g1)
      ensures Ordinal(rows, i, g2) == Ordinal(rows, k, g2)
    {
      SameOrdinalIffUnbroken(rows, i, k, g1);
      forall m | i < m <= k ensures LinkedAt(rows, m, g2) { assert LinkedAt(rows, m, g1); }
      SameOrdinalIffUnbroken(rows, i, k, g2);
    }
    GroupsAreSessions(rows, |rows|, g1);
    GroupsAreSessions(rows, |rows|, g2);
    if |rows| > 0 {
      FewerOrdinals(rows, |rows| - 1, g1, g2);
    }
  }
}

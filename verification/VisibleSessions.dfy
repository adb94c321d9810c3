/** What the query shows of a participant's sessions: the window filter comes before the grouping, so a row of the
    result is a session of the whole history, seen through the window, exactly under Windowing's condition. */
module VisibleSessions {
  import opened Domain
  import opened Grouping
  import opened Query
  import opened Windowing

  /** The participant's joins, whatever the window. */
  function HistoryOf(table: seq<Join>, key: PartitionKey): (rows: seq<Join>)
    ensures forall j :: j in rows ==> j in table && SameParticipant(j, key)
    ensures forall j :: j in table && SameParticipant(j, key) ==> j in rows
  {
    if |table| == 0 then []
    else
      var n := |table| - 1;
      HistoryOf(table[..n], key) + (if SameParticipant(table[n], key) then [table[n]] else [])
  }

  lemma {:induction false} HistoryOfIsHistory(table: seq<Join>, key: PartitionKey)
    requires History(table)
    ensures History(HistoryOf(table, key))
    decreases |table|
  {
    if |table| == 0 {
    } else {
      var n := |table| - 1;
      HistoryOfIsHistory(table[..n], key);
      var before := HistoryOf(table[..n], key);
      assert forall i :: 0 <= i < |before| ==> before[i] in table[..n];
    }
  }

  lemma {:induction false} PositionsOfPrefix(rows: seq<Join>, last: Join, n: nat, w1: Instant, w2: Instant)
    requires n <= |rows| && w1 <= w2 && EndsAfterStart(last)
    requires forall i :: 0 <= i < |rows| ==> EndsAfterStart(rows[i])
    ensures Positions(rows + [last], n, w1, w2) == Positions(rows, n, w1, w2)
  {
    if n == 0 {
    } else {
      PositionsOfPrefix(rows, last, n - 1, w1, w2);
    }
  }

  ghost predicate Fit(rows: seq<Join>) {
    forall i :: 0 <= i < |rows| ==> EndsAfterStart(rows[i])
  }

  /** The joins that match the window, in order. */
  ghost function Visible(rows: seq<Join>, w1: Instant, w2: Instant): (visible: seq<Join>)
    requires w1 <= w2 && Fit(rows)
  {
    if |rows| == 0 then []
    else
      var n := |rows| - 1;
      Visible(rows[..n], w1, w2) + (if Matched(rows[n], w1, w2) then [rows[n]] else [])
  }

  lemma VisibleSnoc(rows: seq<Join>, last: Join, w1: Instant, w2: Instant)
    requires w1 <= w2 && EndsAfterStart(last) && Fit(rows)
    ensures Visible(rows + [last], w1, w2) ==
            Visible(rows, w1, w2) + (if Matched(last, w1, w2) then [last] else [])
  {
  }

  lemma {:induction false} VisibleIsAt(rows: seq<Join>, w1: Instant, w2: Instant)
    requires w1 <= w2 && Fit(rows)
    ensures Visible(rows, w1, w2) == At(rows, Positions(rows, |rows|, w1, w2))
    decreases |rows|
  {
    if |rows| == 0 {
    } else {
      var n := |rows| - 1;
      VisibleIsAt(rows[..n], w1, w2);
      assert rows == rows[..n] + [rows[n]];
      PositionsOfPrefix(rows[..n], rows[n], n, w1, w2);
      var before := Positions(rows[..n], n, w1, w2);
      assert Positions(rows, |rows|, w1, w2) == before + (if Matched(rows[n], w1, w2) then [n] else []);
    }
  }

  /** The rows the query groups are the participant's history at the positions the window matches. */
  lemma {:induction false} RowsAreWindowed(table: seq<Join>, key: PartitionKey, w1: Instant, w2: Instant)
    requires w1 <= w2 && History(table)
    ensures History(HistoryOf(table, key))
    ensures Rows(table, key, w1, w2) == Visible(HistoryOf(table, key), w1, w2)
    decreases |table|
  {
    HistoryOfIsHistory(table, key);
    if |table| == 0 {
    } else {
      var n := |table| - 1;
      RowsAreWindowed(table[..n], key, w1, w2);
      if SameParticipant(table[n], key) {
        VisibleSnoc(HistoryOf(table[..n], key), table[n], w1, w2);
      } else {
        assert HistoryOf(table, key) == HistoryOf(table[..n], key);
      }
    }
  }

  lemma RowsAreAt(table: seq<Join>, key: PartitionKey, w1: Instant, w2: Instant)
    requires w1 <= w2 && History(table)
    ensures History(HistoryOf(table, key))
    ensures
      var history := HistoryOf(table, key);
      Rows(table, key, w1, w2) == At(history, Positions(history, |history|, w1, w2))
  {
    RowsAreWindowed(table, key, w1, w2);
    VisibleIsAt(HistoryOf(table, key), w1, w2);
  }

  /** Two joins the query counts in one row are joins of one session of the history, and conversely. */
  ghost predicate QueryAgrees(table: seq<Join>, key: PartitionKey, w1: Instant, w2: Instant, gap: int)
    requires History(table) && w1 <= w2
  {
    var history, rows := HistoryOf(table, key), Rows(table, key, w1, w2);
    History(history) &&
    var ps := Positions(history, |history|, w1, w2);
    |rows| == |ps| && SameRows(rows, history, ps, gap)
  }

  ghost predicate SameRows(rows: seq<Join>, history: seq<Join>, ps: seq<nat>, gap: int)
    requires |rows| == |ps| && forall a :: 0 <= a < |ps| ==> ps[a] < |history|
  {
    forall a, b :: 0 <= a <= b < |ps| ==> SameRowIffSameSession(rows, history, ps, a, b, gap)
  }

  ghost predicate SameRowIffSameSession(
    rows: seq<Join>, history: seq<Join>, ps: seq<nat>, a: nat, b: nat, gap: int)
    requires |rows| == |ps| && a < |ps| && b < |ps| && ps[a] < |history| && ps[b] < |history|
  {
    Ordinal(rows, a, gap) == Ordinal(rows, b, gap) <==> Ordinal(history, ps[a], gap) == Ordinal(history, ps[b], gap)
  }

  lemma AgreesIffQueryAgrees(table: seq<Join>, key: PartitionKey, w1: Instant, w2: Instant, gap: int)
    requires History(table) && w1 <= w2
    ensures History(HistoryOf(table, key))
    ensures QueryAgrees(table, key, w1, w2, gap) <==> AgreesOn(HistoryOf(table, key), w1, w2, gap)
  {
    RowsAreAt(table, key, w1, w2);
    var history := HistoryOf(table, key);
    AgreeTogether(history, Positions(history, |history|, w1, w2), gap);
  }

  lemma AgreeTogether(history: seq<Join>, ps: seq<nat>, gap: int)
    requires Ascending(history, ps)
    ensures SameRows(At(history, ps), history, ps, gap) <==>
            forall a, b :: 0 <= a <= b < |ps| ==> AgreesAt(history, ps, a, b, gap)
  {
    if SameRows(At(history, ps), history, ps, gap) {
      forall a, b | 0 <= a <= b < |ps| ensures AgreesAt(history, ps, a, b, gap) {
        assert SameRowIffSameSession(At(history, ps), history, ps, a, b, gap);
      }
    }
    if forall a, b :: 0 <= a <= b < |ps| ==> AgreesAt(history, ps, a, b, gap) {
      forall a, b | 0 <= a <= b < |ps| ensures SameRowIffSameSession(At(history, ps), history, ps, a, b, gap) {
        assert AgreesAt(history, ps, a, b, gap);
      }
    }
  }

  /** Which joins the query counts in one row of its result, against the sessions of the whole history: they
      agree in every window and at every threshold exactly when each jump's gap is the largest it skips. */
  lemma QueryAgreesExactly(table: seq<Join>, key: PartitionKey)
    requires History(table)
    ensures History(HistoryOf(table, key))
    ensures
      var history := HistoryOf(table, key);
      JumpsAreLargest(history) <==>
      forall w1: Instant, w2: Instant, gap: int :: w1 < w2 ==> QueryAgrees(table, key, w1, w2, gap)
  {
    var history := HistoryOf(table, key);
    HistoryOfIsHistory(table, key);
    WindowAgreesExactly(history);
    forall w1: Instant, w2: Instant, gap: int | w1 < w2
      ensures QueryAgrees(table, key, w1, w2, gap) <==> AgreesOn(history, w1, w2, gap)
    {
      AgreesIffQueryAgrees(table, key, w1, w2, gap);
    }
  }

  // ---- rows of the result are sessions seen through the window ----

  lemma {:induction false} GroupFits(rows: seq<Join>, n: nat, gap: int, o: int)
    requires Fit(rows) && n <= |rows|
    ensures Fit(Group(rows, n, gap, o))
    decreases n
  {
    if n == 0 {
    } else {
      GroupFits(rows, n - 1, gap, o);
    }
  }

  lemma {:induction false} GroupMember(rows: seq<Join>, n: nat, gap: int, o: int) returns (a: nat)
    requires n <= |rows| && |Group(rows, n, gap, o)| > 0
    ensures a < n && Ordinal(rows, a, gap) == o
    decreases n
  {
    if Ordinal(rows, n - 1, gap) == o {
      a := n - 1;
    } else {
      a := GroupMember(rows, n - 1, gap, o);
    }
  }

  /** How many of the first `n` joins the window shows: the place of join `n` if it is shown. */
  ghost function Place(history: seq<Join>, n: nat, w1: Instant, w2: Instant): nat
    requires Fit(history) && w1 <= w2 && n <= |history|
  {
    if n == 0 then 0 else Place(history, n - 1, w1, w2) + (if Matched(history[n - 1], w1, w2) then 1 else 0)
  }

  /** Join `i`, if the window shows it, is in group `o` there exactly when it is in group `f` of the history. */
  ghost predicate SameMember(
    history: seq<Join>, shown: seq<Join>, i: nat, w1: Instant, w2: Instant, gap: int, o: int, f: int)
    requires Fit(history) && w1 <= w2 && i < |history|
  {
    Matched(history[i], w1, w2) ==>
      && Place(history, i, w1, w2) < |shown| && shown[Place(history, i, w1, w2)] == history[i]
      && (Ordinal(shown, Place(history, i, w1, w2), gap) == o <==> Ordinal(history, i, gap) == f)
  }

  /** Then group `o` is group `f`, seen through the window. */
  lemma {:induction false} GroupIsVisible(
    history: seq<Join>, shown: seq<Join>, n: nat, w1: Instant, w2: Instant, gap: int, o: int, f: int)
    requires Fit(history) && w1 <= w2 && n <= |history|
    requires forall i :: 0 <= i < |history| ==> SameMember(history, shown, i, w1, w2, gap, o, f)
    ensures Fit(Group(history, n, gap, f)) && Place(history, n, w1, w2) <= |shown|
    ensures Group(shown, Place(history, n, w1, w2), gap, o) == Visible(Group(history, n, gap, f), w1, w2)
    decreases n
  {
    GroupFits(history, n, gap, f);
    if n == 0 {
    } else {
      var last, before := history[n - 1], Group(history, n - 1, gap, f);
      GroupIsVisible(history, shown, n - 1, w1, w2, gap, o, f);
      assert SameMember(history, shown, n - 1, w1, w2, gap, o, f);
      if Ordinal(history, n - 1, gap) == f {
        VisibleSnoc(before, last, w1, w2);
      } else {
        assert Group(history, n, gap, f) == before;
      }
    }
  }

  lemma {:induction false} PlaceCounts(history: seq<Join>, n: nat, w1: Instant, w2: Instant)
    requires Fit(history) && w1 <= w2 && n <= |history|
    ensures |Positions(history, n, w1, w2)| == Place(history, n, w1, w2)
    decreases n
  {
    if n == 0 {
    } else {
      PlaceCounts(history, n - 1, w1, w2);
    }
  }

  lemma {:induction false} PlaceAmong(history: seq<Join>, i: nat, n: nat, w1: Instant, w2: Instant)
    requires Fit(history) && w1 <= w2 && i < n <= |history| && Matched(history[i], w1, w2)
    ensures Place(history, i, w1, w2) < |Positions(history, n, w1, w2)|
    ensures Positions(history, n, w1, w2)[Place(history, i, w1, w2)] == i
    decreases n
  {
    if n == i + 1 {
      PlaceCounts(history, i, w1, w2);
      assert Positions(history, n, w1, w2) == Positions(history, i, w1, w2) + [i];
    } else {
      PlaceAmong(history, i, n - 1, w1, w2);
    }
  }

  /** The positions of the window and the places of the joins it shows are inverse to each other. */
  lemma {:induction false} PlaceOfPosition(history: seq<Join>, i: nat, w1: Instant, w2: Instant)
    requires Fit(history) && w1 <= w2 && i < |history| && Matched(history[i], w1, w2)
    ensures
      var ps, a := Positions(history, |history|, w1, w2), Place(history, i, w1, w2);
      a < |ps| && ps[a] == i
  {
    PlaceAmong(history, i, |history|, w1, w2);
  }

  lemma PositionOfPlace(history: seq<Join>, a: nat, w1: Instant, w2: Instant)
    requires Fit(history) && w1 <= w2 && a < |Positions(history, |history|, w1, w2)|
    ensures Place(history, Positions(history, |history|, w1, w2)[a], w1, w2) == a
  {
    var ps := Positions(history, |history|, w1, w2);
    PlaceOfPosition(history, ps[a], w1, w2);
  }

  /** Where the query agrees with the history, the group of a shown join is its session, seen through the window. */
  lemma AgreedGroup(table: seq<Join>, key: PartitionKey, w1: Instant, w2: Instant, gap: int, i: nat)
    requires w1 <= w2 && History(table) && QueryAgrees(table, key, w1, w2, gap)
    requires i < |HistoryOf(table, key)| && Matched(HistoryOf(table, key)[i], w1, w2)
    ensures
      var history, rows := HistoryOf(table, key), Rows(table, key, w1, w2);
      var f := Ordinal(history, i, gap);
      && Fit(Group(history, |history|, gap, f)) && Place(history, i, w1, w2) < |rows|
      && Group(rows, |rows|, gap, Ordinal(rows, Place(history, i, w1, w2), gap)) ==
         Visible(Group(history, |history|, gap, f), w1, w2)
  {
    var history, rows := HistoryOf(table, key), Rows(table, key, w1, w2);
    var ps := Positions(history, |history|, w1, w2);
    RowsAreAt(table, key, w1, w2);
    PlaceOfPosition(history, i, w1, w2);
    PlaceCounts(history, |history|, w1, w2);
    var a := Place(history, i, w1, w2);
    var o, f := Ordinal(rows, a, gap), Ordinal(history, i, gap);
    forall k | 0 <= k < |history| ensures SameMember(history, rows, k, w1, w2, gap, o, f) {
      if Matched(history[k], w1, w2) {
        PlaceOfPosition(history, k, w1, w2);
        var b := Place(history, k, w1, w2);
        assert if a <= b then SameRowIffSameSession(rows, history, ps, a, b, gap)
               else SameRowIffSameSession(rows, history, ps, b, a, gap);
      }
    }
    GroupIsVisible(history, rows, |history|, w1, w2, gap, o, f);
  }

  /** The row describes session `f` of the participant's whole history, as far as the window shows it. */
  ghost predicate Shows(table: seq<Join>, w1: Instant, w2: Instant, gap: int, row: SessionRow, f: int)
    requires w1 <= w2
  {
    var history := HistoryOf(table, row.key);
    var sessions := Sessions(history, |history|, gap);
    && 1 <= f <= |sessions| && Fit(sessions[f - 1]) && |Visible(sessions[f - 1], w1, w2)| > 0
    && row == Aggregate(row.key, row.ordinal, Visible(sessions[f - 1], w1, w2))
  }

  lemma AgreedRow(table: seq<Join>, w1: Instant, w2: Instant, gap: int, row: SessionRow, i: nat)
    requires w1 <= w2 && History(table) && QueryAgrees(table, row.key, w1, w2, gap)
    requires i < |HistoryOf(table, row.key)| && Matched(HistoryOf(table, row.key)[i], w1, w2)
    requires
      var rows, a := Rows(table, row.key, w1, w2), Place(HistoryOf(table, row.key), i, w1, w2);
      && a < |rows| && row.ordinal == Ordinal(rows, a, gap)
      && |Group(rows, |rows|, gap, row.ordinal)| > 0
      && row == Aggregate(row.key, row.ordinal, Group(rows, |rows|, gap, row.ordinal))
    ensures Shows(table, w1, w2, gap, row, Ordinal(HistoryOf(table, row.key), i, gap))
  {
    var history := HistoryOf(table, row.key);
    AgreedGroup(table, row.key, w1, w2, gap, i);
    GroupsAreSessions(history, |history|, gap);
  }

  /** Where the query agrees with the history, every row of its result describes one session of the whole
      history as far as the window shows it. */
  lemma ResultShowsSessions(table: seq<Join>, w1: Instant, w2: Instant, gap: int, row: SessionRow) returns (f: int)
    requires w1 <= w2 && History(table) && QueryAgrees(table, row.key, w1, w2, gap)
    requires row in Result(table, w1, w2, gap)
    ensures Shows(table, w1, w2, gap, row, f)
  {
    var history, rows := HistoryOf(table, row.key), Rows(table, row.key, w1, w2);
    var a := GroupMember(rows, |rows|, gap, row.ordinal);
    RowsAreAt(table, row.key, w1, w2);
    PositionOfPlace(history, a, w1, w2);
    var i := Positions(history, |history|, w1, w2)[a];
    AgreedRow(table, w1, w2, gap, row, i);
    f := Ordinal(history, i, gap);
  }

  lemma {:induction false} VisibleMember(history: seq<Join>, n: nat, w1: Instant, w2: Instant, gap: int, f: int)
    returns (i: nat)
    requires Fit(history) && w1 <= w2 && n <= |history| && Fit(Group(history, n, gap, f))
    requires |Visible(Group(history, n, gap, f), w1, w2)| > 0
    ensures i < n && Matched(history[i], w1, w2) && Ordinal(history, i, gap) == f
    decreases n
  {
    GroupFits(history, n - 1, gap, f);
    var before := Group(history, n - 1, gap, f);
    if Ordinal(history, n - 1, gap) != f {
      assert Group(history, n, gap, f) == before;
      i := VisibleMember(history, n - 1, w1, w2, gap, f);
    } else {
      VisibleSnoc(before, history[n - 1], w1, w2);
      if Matched(history[n - 1], w1, w2) {
        i := n - 1;
      } else {
        i := VisibleMember(history, n - 1, w1, w2, gap, f);
      }
    }
  }

  lemma GroupInResult(table: seq<Join>, key: PartitionKey, w1: Instant, w2: Instant, gap: int, o: int)
    requires w1 <= w2 && History(table)
    requires var rows := Rows(table, key, w1, w2); |Group(rows, |rows|, gap, o)| > 0
    ensures
      var rows := Rows(table, key, w1, w2);
      Aggregate(key, o, Group(rows, |rows|, gap, o)) in Result(table, w1, w2, gap)
  {
    var rows := Rows(table, key, w1, w2);
    RowsSorted(table, key, w1, w2);
    GroupIsSession(rows, gap, o);
    RowsHaveKey(table, key, w1, w2);
  }

  /** And every session of the whole history that the window shows at all has its row. */
  lemma SessionsAreShown(table: seq<Join>, key: PartitionKey, w1: Instant, w2: Instant, gap: int, f: int)
    returns (row: SessionRow)
    requires w1 <= w2 && History(table) && QueryAgrees(table, key, w1, w2, gap)
    requires
      var history := HistoryOf(table, key);
      var sessions := Sessions(history, |history|, gap);
      1 <= f <= |sessions| && Fit(sessions[f - 1]) && |Visible(sessions[f - 1], w1, w2)| > 0
    ensures row.key == key && row in Result(table, w1, w2, gap) && Shows(table, w1, w2, gap, row, f)
  {
    var history, rows := HistoryOf(table, key), Rows(table, key, w1, w2);
    GroupsAreSessions(history, |history|, gap);
    var i := VisibleMember(history, |history|, w1, w2, gap, f);
    AgreedGroup(table, key, w1, w2, gap, i);
    var o := Ordinal(rows, Place(history, i, w1, w2), gap);
    row := Aggregate(key, o, Group(rows, |rows|, gap, o));
    AgreedRow(table, w1, w2, gap, row, i);
    GroupInResult(table, key, w1, w2, gap, o);
  }
}

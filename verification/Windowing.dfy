/** The query filters by window before it computes lag. When grouping the filtered joins agrees with
    grouping the whole history. */
module Windowing {
  import opened Domain
  import opened Grouping

  // ---- ranges ----

  /** A half-open tstzrange; no upper bound is unbounded. */
  datatype Range = EmptyRange | Between(lo: Instant, hi: Option<Instant>)

  /** tstzrange(lo, hi, '[)'), which rejects lo > hi. */
  function TsRange(lo: Instant, hi: Option<Instant>): Range
    requires hi.Some? ==> lo <= hi.value
  {
    if hi == Some(lo) then EmptyRange else Between(lo, hi)
  }

  predicate Below(t: Instant, hi: Option<Instant>) { hi.Some? ==> t < hi.value }

  /** The && operator. */
  predicate Overlaps(a: Range, b: Range) {
    a.Between? && b.Between? && Below(a.lo, b.hi) && Below(b.lo, a.hi)
  }

  predicate Contains(r: Range, t: Instant) {
    r.Between? && r.lo <= t && Below(t, r.hi)
  }

  /** The constraint every stored row meets. */
  predicate EndsAfterStart(j: Join) { j.endedAt.Some? ==> j.startedAt <= j.endedAt.value }

  predicate Matched(j: Join, w1: Instant, w2: Instant)
    requires EndsAfterStart(j) && w1 <= w2
  {
    Overlaps(TsRange(j.startedAt, j.endedAt), TsRange(w1, Some(w2)))
  }

  /** A join matches a window exactly when some instant lies in both. */
  lemma MatchedMeansSharedInstant(j: Join, w1: Instant, w2: Instant)
    requires EndsAfterStart(j) && w1 <= w2
    ensures Matched(j, w1, w2) <==>
            exists t :: Contains(TsRange(j.startedAt, j.endedAt), t) && Contains(TsRange(w1, Some(w2)), t)
  {
    var later := if j.startedAt < w1 then w1 else j.startedAt;
    if Matched(j, w1, w2) {
      assert Contains(TsRange(j.startedAt, j.endedAt), later) && Contains(TsRange(w1, Some(w2)), later);
    }
  }

  /** Present after instant `c`: open, or of positive length and ending later than `c`. */
  predicate Outlasts(j: Join, c: Instant) {
    j.endedAt.None? || (j.startedAt < j.endedAt.value && c < j.endedAt.value)
  }

  lemma MatchedClosedForm(j: Join, w1: Instant, w2: Instant)
    requires EndsAfterStart(j) && w1 < w2
    ensures Matched(j, w1, w2) <==> j.startedAt < w2 && Outlasts(j, w1)
  {
  }

  // ---- the filtered history ----

  ghost predicate History(rows: seq<Join>) {
    Sorted(rows) && forall i :: 0 <= i < |rows| ==> EndsAfterStart(rows[i])
  }

  /** Positions of the matched joins among the first `n`. */
  function Positions(rows: seq<Join>, n: nat, w1: Instant, w2: Instant): (ps: seq<nat>)
    requires n <= |rows| && w1 <= w2 && forall i :: 0 <= i < |rows| ==> EndsAfterStart(rows[i])
    ensures forall a :: 0 <= a < |ps| ==> ps[a] < n && Matched(rows[ps[a]], w1, w2)
    ensures forall a, b :: 0 <= a < b < |ps| ==> ps[a] < ps[b]
    ensures forall i :: 0 <= i < n && Matched(rows[i], w1, w2) ==> i in ps
  {
    if n == 0 then []
    else Positions(rows, n - 1, w1, w2) + (if Matched(rows[n - 1], w1, w2) then [n - 1] else [])
  }

  function At(rows: seq<Join>, ps: seq<nat>): (picked: seq<Join>)
    requires forall a :: 0 <= a < |ps| ==> ps[a] < |rows|
    ensures |picked| == |ps| && forall a :: 0 <= a < |ps| ==> picked[a] == rows[ps[a]]
  {
    seq(|ps|, a requires 0 <= a < |ps| => rows[ps[a]])
  }

  /** Windowed sessions are the full-history sessions, restricted to the matched joins. */
  ghost predicate AgreesOn(rows: seq<Join>, w1: Instant, w2: Instant, gap: int)
    requires History(rows) && w1 <= w2
  {
    var ps := Positions(rows, |rows|, w1, w2);
    forall a, b :: 0 <= a <= b < |ps| ==> AgreesAt(rows, ps, a, b, gap)
  }

  // ---- neighbours in the window ----

  /** A jump from `i` to `k` over what lies between says the same as the steps do. */
  ghost predicate Faithful(rows: seq<Join>, i: nat, k: nat, gap: int)
    requires i < k < |rows|
  {
    Linked(rows[i], rows[k], gap) <==> Unbroken(rows, i, k, gap)
  }

  lemma UnbrokenSplit(rows: seq<Join>, i: nat, j: nat, k: nat, gap: int)
    requires i <= j <= k < |rows|
    ensures Unbroken(rows, i, k, gap) <==> Unbroken(rows, i, j, gap) && Unbroken(rows, j, k, gap)
  {
  }

  ghost predicate FaithfulAt(rows: seq<Join>, ps: seq<nat>, a: int, gap: int) {
    0 < a < |ps| && ps[a - 1] < ps[a] < |rows| && Faithful(rows, ps[a - 1], ps[a], gap)
  }

  ghost predicate AllFaithful(rows: seq<Join>, ps: seq<nat>, gap: int) {
    forall a :: 0 < a < |ps| ==> FaithfulAt(rows, ps, a, gap)
  }

  ghost predicate Ascending(rows: seq<Join>, ps: seq<nat>) {
    && (forall a :: 0 <= a < |ps| ==> ps[a] < |rows|)
    && (forall a, b :: 0 <= a < b < |ps| ==> ps[a] < ps[b])
  }

  lemma {:induction false} PickedUnbroken(rows: seq<Join>, ps: seq<nat>, a: nat, b: nat, gap: int)
    requires Ascending(rows, ps) && AllFaithful(rows, ps, gap) && a <= b < |ps|
    ensures ps[a] <= ps[b] && (Unbroken(At(rows, ps), a, b, gap) <==> Unbroken(rows, ps[a], ps[b], gap))
    decreases b
  {
    if a == b {
    } else {
      var picked := At(rows, ps);
      PickedUnbroken(rows, ps, a, b - 1, gap);
      assert FaithfulAt(rows, ps, b, gap);
      UnbrokenSplit(rows, ps[a], ps[b - 1], ps[b], gap);
      UnbrokenSplit(picked, a, b - 1, b, gap);
      NeighbourUnbroken(picked, b, gap);
    }
  }

  lemma NeighbourUnbroken(rows: seq<Join>, m: nat, gap: int)
    requires 0 < m < |rows|
    ensures Unbroken(rows, m - 1, m, gap) <==> Linked(rows[m - 1], rows[m], gap)
  {
    assert LinkedAt(rows, m, gap) <==> Linked(rows[m - 1], rows[m], gap);
  }

  /** Two matched joins share a windowed session exactly when they share a full-history session. */
  ghost predicate AgreesAt(rows: seq<Join>, ps: seq<nat>, a: nat, b: nat, gap: int)
    requires Ascending(rows, ps) && a < |ps| && b < |ps|
  {
    Ordinal(At(rows, ps), a, gap) == Ordinal(At(rows, ps), b, gap) <==>
    Ordinal(rows, ps[a], gap) == Ordinal(rows, ps[b], gap)
  }

  lemma FaithfulMeansAgrees(rows: seq<Join>, ps: seq<nat>, a: nat, b: nat, gap: int)
    requires Ascending(rows, ps) && AllFaithful(rows, ps, gap) && a <= b < |ps|
    ensures AgreesAt(rows, ps, a, b, gap)
  {
    PickedUnbroken(rows, ps, a, b, gap);
    SameOrdinalIffUnbroken(At(rows, ps), a, b, gap);
    SameOrdinalIffUnbroken(rows, ps[a], ps[b], gap);
  }

  lemma AgreesMeansFaithful(rows: seq<Join>, ps: seq<nat>, a: nat, gap: int)
    requires Ascending(rows, ps) && 0 < a < |ps| && AgreesAt(rows, ps, a - 1, a, gap)
    ensures FaithfulAt(rows, ps, a, gap)
  {
    SameOrdinalIffUnbroken(At(rows, ps), a - 1, a, gap);
    SameOrdinalIffUnbroken(rows, ps[a - 1], ps[a], gap);
    NeighbourUnbroken(At(rows, ps), a, gap);
  }

  /** The window agrees with the history exactly when every pair of neighbours in it is faithful. */
  lemma AgreesIffFaithful(rows: seq<Join>, w1: Instant, w2: Instant, gap: int)
    requires History(rows) && w1 <= w2
    ensures AgreesOn(rows, w1, w2, gap) <==> AllFaithful(rows, Positions(rows, |rows|, w1, w2), gap)
  {
    var ps := Positions(rows, |rows|, w1, w2);
    if AllFaithful(rows, ps, gap) {
      forall a, b | 0 <= a <= b < |ps| ensures AgreesAt(rows, ps, a, b, gap) {
        FaithfulMeansAgrees(rows, ps, a, b, gap);
      }
    }
    if AgreesOn(rows, w1, w2, gap) {
      forall a | 0 < a < |ps| ensures FaithfulAt(rows, ps, a, gap) {
        assert AgreesAt(rows, ps, a - 1, a, gap);
        AgreesMeansFaithful(rows, ps, a, gap);
      }
    }
  }

  // ---- which jumps can happen, and when they are faithful ----

  /** Some window shows `i` and `k` but nothing between them, and `i` has ended. */
  ghost predicate Jump(rows: seq<Join>, i: int, k: int, c: Instant) {
    && 0 <= i < k < |rows| && rows[i].endedAt.Some?
    && Outlasts(rows[i], c) && Outlasts(rows[k], c)
    && forall m :: i < m < k ==> !Outlasts(rows[m], c)
  }

  ghost function StepGap(rows: seq<Join>, m: int): int
    requires 0 < m < |rows| && rows[m - 1].endedAt.Some?
  {
    rows[m].startedAt - rows[m - 1].endedAt.value
  }

  ghost predicate AllEnded(rows: seq<Join>, i: int, k: int)
    requires 0 <= i < k < |rows|
  {
    forall m :: i <= m < k ==> rows[m].endedAt.Some?
  }

  /** The joins jumped over have all ended, and the gap across is the largest of the gaps between them. */
  ghost predicate LargestGap(rows: seq<Join>, i: int, k: int)
    requires 0 <= i < k < |rows|
  {
    && AllEnded(rows, i, k)
    && var across := rows[k].startedAt - rows[i].endedAt.value;
    && (forall m :: i < m <= k ==> StepGap(rows, m) <= across)
    && (exists m :: i < m <= k && StepGap(rows, m) == across)
  }

  lemma JumpedAreClosed(rows: seq<Join>, i: int, k: int, c: Instant)
    requires Jump(rows, i, k, c)
    ensures AllEnded(rows, i, k)
  {
  }

  lemma UnbrokenMeansGaps(rows: seq<Join>, i: nat, k: nat, gap: int)
    requires i < k < |rows| && AllEnded(rows, i, k)
    ensures Unbroken(rows, i, k, gap) <==> forall m :: i < m <= k ==> StepGap(rows, m) <= gap
  {
    if Unbroken(rows, i, k, gap) {
      forall m | i < m <= k ensures StepGap(rows, m) <= gap { assert LinkedAt(rows, m, gap); }
    }
    if forall m :: i < m <= k ==> StepGap(rows, m) <= gap {
      forall m | i < m <= k ensures LinkedAt(rows, m, gap) { assert StepGap(rows, m) <= gap; }
    }
  }

  /** A jump is faithful at every threshold exactly when its own gap is the largest it skips. */
  lemma FaithfulIffLargest(rows: seq<Join>, i: nat, k: nat, c: Instant)
    requires Jump(rows, i, k, c)
    ensures (forall gap :: Faithful(rows, i, k, gap)) <==> LargestGap(rows, i, k)
  {
    JumpedAreClosed(rows, i, k, c);
    var across := rows[k].startedAt - rows[i].endedAt.value;
    if LargestGap(rows, i, k) {
      var top :| i < top <= k && StepGap(rows, top) == across;
      forall gap ensures Faithful(rows, i, k, gap) {
        UnbrokenMeansGaps(rows, i, k, gap);
        assert StepGap(rows, top) == across;
      }
    }
    if forall gap :: Faithful(rows, i, k, gap) {
      assert Faithful(rows, i, k, across) && Faithful(rows, i, k, across - 1);
      UnbrokenMeansGaps(rows, i, k, across);
      UnbrokenMeansGaps(rows, i, k, across - 1);
    }
  }

  /** Neighbours in a window whose first has ended are a jump at the window's start. */
  lemma NeighboursJump(rows: seq<Join>, w1: Instant, w2: Instant, a: nat)
    requires History(rows) && w1 < w2 && 0 < a < |Positions(rows, |rows|, w1, w2)|
    requires var ps := Positions(rows, |rows|, w1, w2); rows[ps[a - 1]].endedAt.Some?
    ensures var ps := Positions(rows, |rows|, w1, w2); Jump(rows, ps[a - 1], ps[a], w1)
  {
    var ps := Positions(rows, |rows|, w1, w2);
    var i, k := ps[a - 1], ps[a];
    MatchedClosedForm(rows[i], w1, w2);
    MatchedClosedForm(rows[k], w1, w2);
    forall m | i < m < k ensures !Outlasts(rows[m], w1) {
      MatchedClosedForm(rows[m], w1, w2);
      NotBetween(ps, a, m);
    }
  }

  /** Nothing lies between neighbours of an ascending sequence. */
  lemma NotBetween(ps: seq<nat>, a: nat, m: nat)
    requires forall x, y :: 0 <= x < y < |ps| ==> ps[x] < ps[y]
    requires 0 < a < |ps| && ps[a - 1] < m < ps[a]
    ensures m !in ps
  {
  }

  /** In an ascending sequence with no element strictly between two of its elements, they are neighbours. */
  lemma Neighbours(ps: seq<nat>, i: nat, k: nat) returns (a: nat)
    requires forall x, y :: 0 <= x < y < |ps| ==> ps[x] < ps[y]
    requires i in ps && k in ps && i < k && forall m :: i < m < k ==> m !in ps
    ensures 0 < a < |ps| && ps[a - 1] == i && ps[a] == k
  {
    var x :| 0 <= x < |ps| && ps[x] == i;
    a :| 0 <= a < |ps| && ps[a] == k;
    assert x < a;
    assert i <= ps[a - 1] < k && ps[a - 1] in ps;
  }

  /** Conversely every jump is a pair of neighbours in the window that starts at its cut. */
  lemma JumpsAreNeighbours(rows: seq<Join>, i: nat, k: nat, c: Instant) returns (w2: Instant, a: nat)
    requires History(rows) && Jump(rows, i, k, c)
    ensures c < w2
    ensures var ps := Positions(rows, |rows|, c, w2); 0 < a < |ps| && ps[a - 1] == i && ps[a] == k
  {
    w2 := (if c < rows[k].startedAt then rows[k].startedAt else c) + 1;
    var ps := Positions(rows, |rows|, c, w2);
    forall m | i <= m <= k ensures m in ps <==> m == i || m == k {
      MatchedClosedForm(rows[m], c, w2);
    }
    a := Neighbours(ps, i, k);
  }

  // ---- the exact condition ----

  ghost predicate AgreesEverywhere(rows: seq<Join>)
    requires History(rows)
  {
    forall w1: Instant, w2: Instant, gap: int :: w1 < w2 ==> AgreesOn(rows, w1, w2, gap)
  }

  ghost predicate JumpsAreLargest(rows: seq<Join>) {
    forall i, k, c :: Jump(rows, i, k, c) ==> LargestGap(rows, i, k)
  }

  lemma LargestMeansFaithful(rows: seq<Join>, w1: Instant, w2: Instant, gap: int, a: nat)
    requires History(rows) && w1 < w2 && JumpsAreLargest(rows)
    requires 0 < a < |Positions(rows, |rows|, w1, w2)|
    ensures FaithfulAt(rows, Positions(rows, |rows|, w1, w2), a, gap)
  {
    var ps := Positions(rows, |rows|, w1, w2);
    var i, k := ps[a - 1], ps[a];
    if rows[i].endedAt.Some? {
      NeighboursJump(rows, w1, w2, a);
      FaithfulIffLargest(rows, i, k, w1);
    } else {
      assert Unbroken(rows, i, k, gap) ==> LinkedAt(rows, i + 1, gap);
    }
  }

  lemma AgreementMeansLargest(rows: seq<Join>, i: nat, k: nat, c: Instant)
    requires History(rows) && AgreesEverywhere(rows) && Jump(rows, i, k, c)
    ensures LargestGap(rows, i, k)
  {
    var w2, a := JumpsAreNeighbours(rows, i, k, c);
    forall gap ensures Faithful(rows, i, k, gap) {
      assert AgreesOn(rows, c, w2, gap);
      AgreesIffFaithful(rows, c, w2, gap);
      assert FaithfulAt(rows, Positions(rows, |rows|, c, w2), a, gap);
    }
    FaithfulIffLargest(rows, i, k, c);
  }

  /** For every history: the windowed sessions are the restricted full-history sessions, in every window
      and at every threshold, if and only if each jump's gap is the largest gap it skips. */
  lemma WindowAgreesExactly(rows: seq<Join>)
    requires History(rows)
    ensures AgreesEverywhere(rows) <==> JumpsAreLargest(rows)
  {
    if JumpsAreLargest(rows) {
      forall w1: Instant, w2: Instant, gap: int | w1 < w2 ensures AgreesOn(rows, w1, w2, gap) {
        forall a | 0 < a < |Positions(rows, |rows|, w1, w2)|
          ensures FaithfulAt(rows, Positions(rows, |rows|, w1, w2), a, gap)
        {
          LargestMeansFaithful(rows, w1, w2, gap, a);
        }
        AgreesIffFaithful(rows, w1, w2, gap);
      }
    }
    if AgreesEverywhere(rows) {
      forall i, k, c | Jump(rows, i, k, c)
        ensures LargestGap(rows, i, k)
      {
        AgreementMeansLargest(rows, i, k, c);
      }
    }
  }

  /** Closed joins have positive length and end in the order they start; open joins may be anywhere. */
  ghost predicate EndsInOrder(rows: seq<Join>) {
    && (forall i :: 0 <= i < |rows| && rows[i].endedAt.Some? ==> rows[i].startedAt < rows[i].endedAt.value)
    && (forall i, k :: 0 <= i < k < |rows| && rows[i].endedAt.Some? && rows[k].endedAt.Some? ==>
          rows[i].endedAt.value <= rows[k].endedAt.value)
  }

  lemma JumpedEndsEarlier(rows: seq<Join>, i: int, k: int, c: Instant)
    requires Jump(rows, i, k, c)
    requires forall m :: 0 <= m < |rows| && rows[m].endedAt.Some? ==> rows[m].startedAt < rows[m].endedAt.value
    ensures i + 1 < k ==> rows[i + 1].endedAt.Some? && rows[i + 1].endedAt.value < rows[i].endedAt.value
  {
  }

  lemma OrderedJump(rows: seq<Join>, i: int, k: int, c: Instant)
    requires EndsInOrder(rows) && Jump(rows, i, k, c)
    ensures LargestGap(rows, i, k)
  {
    JumpedAreClosed(rows, i, k, c);
    JumpedEndsEarlier(rows, i, k, c);
    assert StepGap(rows, k) == rows[k].startedAt - rows[i].endedAt.value;
  }

  /** In particular whenever joins end in order, so whenever they do not overlap. */
  lemma OrderedHistoriesAgree(rows: seq<Join>)
    requires History(rows) && EndsInOrder(rows)
    ensures AgreesEverywhere(rows)
  {
    forall i, k, c | Jump(rows, i, k, c) ensures LargestGap(rows, i, k) {
      OrderedJump(rows, i, k, c);
    }
    WindowAgreesExactly(rows);
  }

  // ---- histories the window regroups ----

  function Span(from: Instant, to: Instant): Join {
    Join([], [], [], None, None, from, Some(to), Some(EndParticipantLeft), Some([]))
  }

  /** A short join inside a long one: the window that starts after the short one merges what the history splits. */
  lemma NestedJoinRegroups()
    ensures var rows := [Span(0, 10), Span(1, 2), Span(11, 20)]; History(rows) && !AgreesEverywhere(rows)
  {
    var rows := [Span(0, 10), Span(1, 2), Span(11, 20)];
    assert Jump(rows, 0, 2, 5);
    assert StepGap(rows, 2) == 9;
    WindowAgreesExactly(rows);
  }

  /** A join of no length matches no window, and leaving it out splits what the history joins. */
  lemma EmptyJoinRegroups()
    ensures var rows := [Span(0, 10), Span(15, 15), Span(20, 30)]; History(rows) && !AgreesEverywhere(rows)
  {
    var rows := [Span(0, 10), Span(15, 15), Span(20, 30)];
    assert Jump(rows, 0, 2, 5);
    assert StepGap(rows, 1) == 5 && StepGap(rows, 2) == 5;
    WindowAgreesExactly(rows);
  }
}

/**
 * The ranking columns of the 2026 scouting report: the 2024 rows of the
 * supervised table are ranked by their seasonal total and by the forecast
 * points (descending, ties sharing the lowest rank), the difference of the
 * two ranks is labelled with a trend arrow, and the report is ordered by
 * the forecast rank. The forecast itself comes from the gradient-boosted
 * ensemble and is a parameter here.
 */
module Ranking {
  import opened Wrappers
  import opened Text
  import opened Ordering
  import opened SlidingWindow

  // ---------------------------------------------------------------------
  // Competition ("min") ranking
  // ---------------------------------------------------------------------

  /** How many values of `xs` are strictly larger than `x`. */
  function CountAbove(xs: seq<real>, x: real): (c: nat)
    ensures c <= |xs|
  {
    if xs == [] then 0 else (if xs[0] > x then 1 else 0) + CountAbove(xs[1..], x)
  }

  /** A larger value has no more values above it. */
  lemma {:induction false} CountAboveMonotone(xs: seq<real>, a: real, b: real)
    requires a <= b
    ensures CountAbove(xs, b) <= CountAbove(xs, a)
  {
    if xs != [] {
      CountAboveMonotone(xs[1..], a, b);
    }
  }

  /** Raising the threshold past a value that occurs in `xs` drops at least that value. */
  lemma {:induction false} CountAboveStrict(xs: seq<real>, a: real, b: real)
    requires a < b && b in xs
    ensures CountAbove(xs, b) < CountAbove(xs, a)
  {
    if xs[0] == b {
      CountAboveMonotone(xs[1..], a, b);
    } else {
      CountAboveStrict(xs[1..], a, b);
    }
  }

  /** A value of `xs` is never above itself. */
  lemma {:induction false} CountAboveMember(xs: seq<real>, x: real)
    requires x in xs
    ensures CountAbove(xs, x) < |xs|
  {
    if xs[0] != x {
      CountAboveMember(xs[1..], x);
    }
  }

  /** Nothing is above a maximum. */
  lemma {:induction false} CountAboveMax(xs: seq<real>, x: real)
    requires forall k :: 0 <= k < |xs| ==> xs[k] <= x
    ensures CountAbove(xs, x) == 0
  {
    if xs != [] {
      CountAboveMax(xs[1..], x);
    }
  }

  /**
   * `rank(ascending=False, method='min')`: one more than the number of
   * strictly larger values, so tied values share the best rank of their
   * block and every rank lies in 1..n.
   */
  function MinRanks(xs: seq<real>): (r: seq<int>)
    ensures |r| == |xs|
    ensures forall i :: 0 <= i < |xs| ==> r[i] == 1 + CountAbove(xs, xs[i])
    ensures forall i :: 0 <= i < |xs| ==> 1 <= r[i] <= |xs|
  {
    forall i | 0 <= i < |xs| ensures CountAbove(xs, xs[i]) < |xs| {
      CountAboveMember(xs, xs[i]);
    }
    seq(|xs|, i requires 0 <= i < |xs| => 1 + CountAbove(xs, xs[i]))
  }

  /** A better rank means a strictly larger value, and equal ranks mean equal values. */
  lemma RankOrder(xs: seq<real>, i: int, j: int)
    requires 0 <= i < |xs| && 0 <= j < |xs|
    ensures MinRanks(xs)[i] < MinRanks(xs)[j] <==> xs[i] > xs[j]
    ensures MinRanks(xs)[i] == MinRanks(xs)[j] <==> xs[i] == xs[j]
  {
    if xs[i] > xs[j] {
      CountAboveStrict(xs, xs[j], xs[i]);
    } else if xs[i] < xs[j] {
      CountAboveStrict(xs, xs[i], xs[j]);
    }
  }

  /** The largest value ranks first. */
  lemma TopRanksFirst(xs: seq<real>, i: int)
    requires 0 <= i < |xs| && forall k :: 0 <= k < |xs| ==> xs[k] <= xs[i]
    ensures MinRanks(xs)[i] == 1
  {
    CountAboveMax(xs, xs[i]);
  }

  // ---------------------------------------------------------------------
  // Without ties, the ranks are 1..n and the jumps cancel out
  // ---------------------------------------------------------------------

  function Sum(s: seq<int>): int {
    if s == [] then 0 else s[0] + Sum(s[1..])
  }

  lemma {:induction false} SumConcat(a: seq<int>, b: seq<int>)
    ensures Sum(a + b) == Sum(a) + Sum(b)
  {
    if a != [] {
      assert (a + b)[1..] == a[1..] + b;
      SumConcat(a[1..], b);
    } else {
      assert a + b == b;
    }
  }

  /** `s` without its `k`-th element. */
  function RemoveAt(s: seq<int>, k: int): (t: seq<int>)
    requires 0 <= k < |s|
    ensures |t| == |s| - 1
    ensures forall j :: 0 <= j < |t| ==> t[j] == if j < k then s[j] else s[j + 1]
    ensures Sum(t) + s[k] == Sum(s)
  {
    assert s == s[..k] + [s[k]] + s[k + 1..];
    SumConcat(s[..k] + [s[k]], s[k + 1..]);
    SumConcat(s[..k], [s[k]]);
    SumConcat(s[..k], s[k + 1..]);
    assert [s[k]][1..] == [];
    s[..k] + s[k + 1..]
  }

  predicate InRange(s: seq<int>, lo: int, hi: int) {
    forall j :: 0 <= j < |s| ==> lo <= s[j] <= hi
  }

  /** Removing the only occurrence of `s[k]` leaves a sequence without it. */
  lemma RemoveDistinct(s: seq<int>, k: int)
    requires 0 <= k < |s| && Distinct(s)
    ensures Distinct(RemoveAt(s, k))
    ensures forall j :: 0 <= j < |s| - 1 ==> RemoveAt(s, k)[j] != s[k]
  {
  }

  /** Pigeonhole: distinct values from 1..m are at most m. */
  lemma {:induction false} DistinctInRangeLength(s: seq<int>, m: nat)
    requires Distinct(s) && InRange(s, 1, m)
    ensures |s| <= m
  {
    if s != [] {
      assert 1 <= s[0] <= m;
      if k :| 0 <= k < |s| && s[k] == m {
        var t := RemoveAt(s, k);
        RemoveDistinct(s, k);
        DistinctInRangeLength(t, m - 1);
      } else {
        DistinctInRangeLength(s, m - 1);
      }
    }
  }

  /** Removing the top value `n` of distinct values from 1..n leaves distinct values from 1..n - 1. */
  lemma RemoveTop(s: seq<int>, k: int, n: int)
    requires 0 <= k < |s| && s[k] == n && Distinct(s) && InRange(s, 1, n)
    ensures Distinct(RemoveAt(s, k)) && InRange(RemoveAt(s, k), 1, n - 1)
  {
    RemoveDistinct(s, k);
  }

  /** n distinct values from 1..n include n itself. */
  lemma TopPresent(s: seq<int>, n: nat)
    requires n > 0 && Distinct(s) && InRange(s, 1, n) && |s| == n
    ensures exists k :: 0 <= k < |s| && s[k] == n
  {
    if forall k :: 0 <= k < |s| ==> s[k] != n {
      assert InRange(s, 1, n - 1);
      DistinctInRangeLength(s, n - 1);
      assert false;
    }
  }

  /** 1 + 2 + ... + n. */
  function Triangle(n: nat): nat {
    if n == 0 then 0 else n + Triangle(n - 1)
  }

  /** n distinct values from 1..n are 1..n, so they add up to 1 + 2 + ... + n. */
  lemma {:induction false} DistinctRangeSum(s: seq<int>, n: nat)
    requires Distinct(s) && InRange(s, 1, n) && |s| == n
    ensures Sum(s) == Triangle(n)
  {
    if n > 0 {
      TopPresent(s, n);
      var k :| 0 <= k < |s| && s[k] == n;
      var t := RemoveAt(s, k);
      RemoveTop(s, k, n);
      DistinctRangeSum(t, n - 1);
    }
  }

  /** `actual_rank_2024 - predicted_rank_2026`, row by row. */
  function Jumps(actual: seq<int>, predicted: seq<int>): (d: seq<int>)
    requires |actual| == |predicted|
    ensures |d| == |actual|
    ensures Sum(d) == Sum(actual) - Sum(predicted)
  {
    if actual == [] then [] else [actual[0] - predicted[0]] + Jumps(actual[1..], predicted[1..])
  }

  /** Without ties a min-ranking is a permutation of 1..n. */
  lemma RanksWithoutTies(xs: seq<real>)
    requires Distinct(xs)
    ensures Distinct(MinRanks(xs))
    ensures Sum(MinRanks(xs)) == Triangle(|xs|)
  {
    var r := MinRanks(xs);
    forall i, j | 0 <= i < j < |r| ensures r[i] != r[j] {
      RankOrder(xs, i, j);
    }
    DistinctRangeSum(r, |xs|);
  }

  /** With no ties in either column, the rank jumps add up to zero. */
  lemma JumpsCancel(totals: seq<real>, predicted: seq<real>)
    requires |totals| == |predicted|
    requires Distinct(totals) && Distinct(predicted)
    ensures Sum(Jumps(MinRanks(totals), MinRanks(predicted))) == 0
  {
    RanksWithoutTies(totals);
    RanksWithoutTies(predicted);
  }

  // ---------------------------------------------------------------------
  // The trend label
  // ---------------------------------------------------------------------

  const Up: char := '\U{2191}'
  const Down: char := '\U{2193}'
  const Level: char := '\U{2194}'

  /** An arrow followed by a bracketed text, as in `↑ (+3)`. */
  function Label(arrow: char, body: string): string {
    [arrow] + " (" + body + ")"
  }

  lemma LabelParts(arrow: char, body: string)
    ensures var t := Label(arrow, body);
      && |t| >= 4 && t[0] == arrow && t[1..3] == " (" && t[3..|t| - 1] == body && t[|t| - 1] == ')'
  {
    var t := Label(arrow, body);
    assert t[1..3] == " (";
    assert t[3..|t| - 1] == body;
  }

  /** `get_movement_arrow`. */
  function Arrow(jump: int): string {
    if jump > 0 then Label(Up, "+" + IntToString(jump))
    else if jump < 0 then Label(Down, IntToString(jump))
    else Label(Level, "Stable")
  }

  /** The arrow of a label names exactly one of the three cases. */
  lemma ArrowCases(jump: int)
    ensures Arrow(jump) != []
    ensures Arrow(jump)[0] == Up <==> jump > 0
    ensures Arrow(jump)[0] == Down <==> jump < 0
    ensures Arrow(jump)[0] == Level <==> jump == 0
  {
  }

  /** The jump a trend label reports: its arrow and the signed number in brackets. */
  function JumpOf(trend: string): Option<int> {
    if trend == Label(Level, "Stable") then Some(0)
    else if |trend| >= 4 && (trend[0] == Up || trend[0] == Down) && trend[1..3] == " (" && trend[|trend| - 1] == ')' then
      match ParseDecimal(trend[3..|trend| - 1])
      case Some(v) => Some(v.Floor)
      case None => None
    else None
  }

  /** Every label reads back as the jump it was made from. */
  lemma JumpOfArrow(jump: int)
    ensures JumpOf(Arrow(jump)) == Some(jump)
  {
    if jump > 0 {
      ParseDecimalPlus(jump);
      JumpOfLabel(Up, "+" + IntToString(jump), jump);
    } else if jump < 0 {
      ParseDecimalIntToString(jump);
      JumpOfLabel(Down, IntToString(jump), jump);
    }
  }

  /** A rising or falling label reads back as the number in its brackets. */
  lemma JumpOfLabel(arrow: char, body: string, jump: int)
    requires arrow == Up || arrow == Down
    requires ParseDecimal(body) == Some(jump as real)
    ensures JumpOf(Label(arrow, body)) == Some(jump)
  {
    var t := Label(arrow, body);
    LabelParts(arrow, body);
    assert t != Label(Level, "Stable") by {
      assert t[0] != Label(Level, "Stable")[0];
    }
  }

  // ---------------------------------------------------------------------
  // The report
  // ---------------------------------------------------------------------

  datatype ReportRow = ReportRow(
    name: string, actualRank: int, predictedRank: int, trend: string,
    total: real, predicted: real)

  /** `df[df['season_year'] == 2024]`, in table order. */
  function Latest2024(w: seq<WindowRow>): (l: seq<WindowRow>)
    ensures forall x :: x in l <==> x in w && x.annual.year == 2024
  {
    if w == [] then []
    else Latest2024(w[..|w| - 1]) + (if w[|w| - 1].annual.year == 2024 then [w[|w| - 1]] else [])
  }

  /** A boolean-mask filter keeps the kept rows in table order. */
  lemma {:induction false} Latest2024InOrder(w: seq<WindowRow>)
    ensures IsSubsequence(Latest2024(w), w)
  {
    if w != [] {
      Latest2024InOrder(w[..|w| - 1]);
      SubsequenceStep(Latest2024(w), Latest2024(w[..|w| - 1]), w, w[|w| - 1].annual.year == 2024);
    }
  }

  /** A boolean-mask filter keeps each kept row as often as the table holds it, and no other row. */
  lemma {:induction false} Latest2024Count(w: seq<WindowRow>, x: WindowRow)
    ensures multiset(Latest2024(w))[x] == if x.annual.year == 2024 then multiset(w)[x] else 0
  {
    if w != [] {
      var p, last := w[..|w| - 1], w[|w| - 1];
      Latest2024Count(p, x);
      var q := Latest2024(p);
      assert w == p + [last];
      assert multiset(w) == multiset(p) + multiset{last};
      if last.annual.year == 2024 {
        assert Latest2024(w) == q + [last];
        assert multiset(q + [last]) == multiset(q) + multiset{last};
      } else {
        assert Latest2024(w) == q;
      }
    }
  }

  /** The seasonal totals, or `None` when one is NaN (`astype(int)` then raises on its rank). */
  function TotalsOf(latest: seq<WindowRow>): (t: Option<seq<real>>)
    ensures t.Some? <==> forall i :: 0 <= i < |latest| ==> latest[i].annual.seasonTotal.Some?
    ensures t.Some? ==> |t.value| == |latest| && forall i :: 0 <= i < |latest| ==> t.value[i] == latest[i].annual.seasonTotal.value
  {
    if latest == [] then Some([])
    else
      match (latest[0].annual.seasonTotal, TotalsOf(latest[1..]))
      case (Some(v), Some(rest)) => Some([v] + rest)
      case _ => None
  }

  /** The report rows in table order, before the final sort. */
  function ReportRows(latest: seq<WindowRow>, totals: seq<real>, predicted: seq<real>): (rows: seq<ReportRow>)
    requires |totals| == |latest| && |predicted| == |latest|
    ensures |rows| == |latest|
  {
    var actual, forecast := MinRanks(totals), MinRanks(predicted);
    seq(|latest|, i requires 0 <= i < |latest| =>
      ReportRow(latest[i].annual.name, actual[i], forecast[i], Arrow(actual[i] - forecast[i]), totals[i], predicted[i]))
  }

  /** Both ranks lie in 1..n and the trend label is the label of their difference. */
  predicate RankedRow(row: ReportRow, n: int) {
    && 1 <= row.actualRank <= n
    && 1 <= row.predictedRank <= n
    && row.trend == Arrow(row.actualRank - row.predictedRank)
  }

  lemma ReportRowsRanked(latest: seq<WindowRow>, totals: seq<real>, predicted: seq<real>)
    requires |totals| == |latest| && |predicted| == |latest|
    ensures forall row :: row in ReportRows(latest, totals, predicted) ==> RankedRow(row, |latest|)
  {
    var rows := ReportRows(latest, totals, predicted);
    forall row | row in rows ensures RankedRow(row, |latest|) {
      var i :| 0 <= i < |rows| && rows[i] == row;
    }
  }

  /** `sort_values('predicted_rank_2026')`. */
  predicate ForecastBefore(a: ReportRow, b: ReportRow) {
    a.predictedRank < b.predictedRank
  }

  lemma ForecastBeforeIsStrict()
    ensures IsStrictOrder(ForecastBefore)
  {
  }

  /**
   * The scouting report for the 2024 rows of the supervised table, given
   * one forecast per row; `None` when a seasonal total is missing.
   */
  function ScoutingReport(w: seq<WindowRow>, predicted: seq<real>): Option<seq<ReportRow>>
    requires |predicted| == |Latest2024(w)|
  {
    var latest := Latest2024(w);
    match TotalsOf(latest)
    case None => None
    case Some(totals) =>
      ForecastBeforeIsStrict();
      Some(SortStable(ReportRows(latest, totals, predicted), ForecastBefore))
  }

  /**
   * The report exists exactly when every 2024 total is present; it then
   * holds the ranked rows, ordered by forecast rank, each with ranks in
   * 1..n and the trend label of its own rank jump.
   */
  lemma ScoutingReportSpec(w: seq<WindowRow>, predicted: seq<real>)
    requires |predicted| == |Latest2024(w)|
    ensures var latest := Latest2024(w);
      ScoutingReport(w, predicted).Some? <==> forall i :: 0 <= i < |latest| ==> latest[i].annual.seasonTotal.Some?
    ensures var r := ScoutingReport(w, predicted);
      r.Some? ==>
        && |r.value| == |Latest2024(w)|
        && multiset(r.value) == multiset(ReportRows(Latest2024(w), TotalsOf(Latest2024(w)).value, predicted))
        && (forall i, j :: 0 <= i < j < |r.value| ==> r.value[i].predictedRank <= r.value[j].predictedRank)
        && (forall i :: 0 <= i < |r.value| ==> RankedRow(r.value[i], |r.value|))
  {
    var latest := Latest2024(w);
    if TotalsOf(latest).Some? {
      var totals := TotalsOf(latest).value;
      var rows := ReportRows(latest, totals, predicted);
      var r := ScoutingReport(w, predicted).value;
      assert r == SortStable(rows, ForecastBefore);
      ReportRowsRanked(latest, totals, predicted);
      assert |r| == |multiset(r)| == |multiset(rows)| == |rows|;
      forall i | 0 <= i < |r| ensures RankedRow(r[i], |r|) {
        assert r[i] in multiset(rows);
      }
    }
  }
}

/**
 * `run_advanced_feature_pipeline`: ids are normalised, the 50 players with
 * the largest 2024 seasonal total are selected, and for each of them a
 * feature record is built: decay-weighted momentum over all seasons, the
 * volatility of all their entries, and the 2024 pressure score in which
 * "Senior" tournaments count double.
 */
module ExtractFeatures {
  import opened Wrappers
  import opened Text
  import opened Ordering
  import opened LongTable

  const LatestYear: int := 2024
  const TopCount: nat := 50
  /** `decay_factor = 0.8`, exactly. */
  const Decay: real := 4.0 / 5.0

  // ---------------------------------------------------------------------
  // Id normalisation
  // ---------------------------------------------------------------------

  /** `astype(str).str.strip().str.replace('.0', '', regex=False)`. */
  function NormalizeId(raw: string): string {
    DeleteAll(Strip(raw), ".0")
  }

  lemma {:induction false} DeleteDotZeroSuffix(d: string)
    requires IsDigits(d)
    ensures DeleteAll(d + ".0", ".0") == d
  {
    if d == [] {
      assert d + ".0" == ".0";
      assert ".0"[2..] == [];
    } else {
      var s := d + ".0";
      assert s[0] == d[0] && s[..2] != ".0";
      assert s[1..] == d[1..] + ".0";
      DeleteDotZeroSuffix(d[1..]);
    }
  }

  /** An all-digit id is left as it is. */
  lemma NormalizeDigitsUnchanged(raw: string)
    requires IsDigits(raw)
    ensures NormalizeId(raw) == raw
  {
    if raw != [] {
      assert IsDigit(raw[0]) && IsDigit(raw[|raw| - 1]);
      assert TrimStart(raw) == raw;
    }
    assert Strip(raw) == raw;
    DigitsHaveNoDot(raw, ".0");
  }

  /** A float-typed id such as "123.0" is normalised back to "123". */
  lemma NormalizeFloatId(n: nat)
    ensures NormalizeId(NatToString(n) + ".0") == NatToString(n)
  {
    var s := NatToString(n) + ".0";
    assert TrimStart(s) == s;
    assert TrimEnd(s) == s;
    DeleteDotZeroSuffix(NatToString(n));
  }

  /** `astype(str)` of a read-back id: a missing (empty) id prints as "nan". */
  function IdString(id: string): string {
    if id == "" then "nan" else id
  }

  function NormalizeRow(r: LongRow): LongRow {
    r.(id := NormalizeId(IdString(r.id)))
  }

  /** A row whose id is missing is filed under the id "nan", which is then a group like any other. */
  lemma NormalizeMissingId(r: LongRow)
    requires r.id == ""
    ensures NormalizeRow(r).id == "nan"
  {
    AbsentFirstChar("nan", ".0");
    StripUnchanged("nan");
  }

  /** The table with every id normalised and every other cell as it was. */
  function NormalizeIds(rows: seq<LongRow>): (n: seq<LongRow>)
    ensures |n| == |rows|
    ensures forall i :: 0 <= i < |rows| ==> n[i] == rows[i].(id := n[i].id)
    ensures forall i :: 0 <= i < |rows| ==> n[i].id == NormalizeId(IdString(rows[i].id))
  {
    seq(|rows|, i requires 0 <= i < |rows| => NormalizeRow(rows[i]))
  }

  // ---------------------------------------------------------------------
  // Top-50 selection
  // ---------------------------------------------------------------------

  /** One row of `player_totals`: an id's first name and maximum 2024 seasonal total. */
  datatype Candidate = Candidate(id: string, name: string, total: Option<real>)

  /** The `groupby('ttfi_id')` row of `id` over the 2024 rows: `first` name, `max` total. */
  function CandidateOf(latest: seq<LongRow>, id: string): Candidate
    requires RowsOf(latest, id) != []
  {
    var g := RowsOf(latest, id);
    Candidate(id, FirstPresent(Names(g)), MaxTotal(g))
  }

  /**
   * A candidate's name is the first of its 2024 names that is not missing:
   * missing only when all are, and otherwise every earlier row of the id
   * has none.
   */
  lemma CandidateName(latest: seq<LongRow>, id: string)
    requires RowsOf(latest, id) != []
    ensures var g, n := RowsOf(latest, id), CandidateOf(latest, id).name;
      && (n == "" <==> forall i :: 0 <= i < |g| ==> g[i].name == "")
      && (n != "" ==> exists i :: 0 <= i < |g| && g[i].name == n && forall j :: 0 <= j < i ==> g[j].name == "")
  {
    var g := RowsOf(latest, id);
    var xs, n := Names(g), CandidateOf(latest, id).name;
    if n != "" {
      FirstPresentIsFirst(xs);
      var i :| 0 <= i < |xs| && xs[i] == n && forall j :: 0 <= j < i ==> xs[j] == "";
      assert g[i].name == n;
    }
  }

  function CandidatesOf(latest: seq<LongRow>, ids: seq<string>): (cs: seq<Candidate>)
    requires forall id :: id in ids ==> RowsOf(latest, id) != []
    ensures |cs| == |ids|
    ensures forall k :: 0 <= k < |ids| ==> cs[k] == CandidateOf(latest, ids[k])
  {
    if ids == [] then [] else [CandidateOf(latest, ids[0])] + CandidatesOf(latest, ids[1..])
  }

  /** `player_totals` before `nlargest`: one row per 2024 id, in ascending id order. */
  function Candidates(latest: seq<LongRow>): seq<Candidate> {
    CandidatesOf(latest, GroupIds(latest))
  }

  /** One candidate per 2024 id, in strictly ascending id order. */
  lemma CandidatesSpec(latest: seq<LongRow>)
    ensures var cs := Candidates(latest);
      && (forall c :: c in cs ==> RowsOf(latest, c.id) != [] && c == CandidateOf(latest, c.id))
      && (forall r :: r in latest ==> exists c :: c in cs && c.id == r.id)
      && StrictlySorted(CandidateIds(cs), StrLess)
  {
    var ids := GroupIds(latest);
    var cs := Candidates(latest);
    assert CandidateIds(cs) == ids;
    CandidatesAreGroups(latest);
    CandidatesCoverRows(latest);
  }

  lemma CandidatesAreGroups(latest: seq<LongRow>)
    ensures forall c :: c in Candidates(latest) ==> RowsOf(latest, c.id) != [] && c == CandidateOf(latest, c.id)
  {
    var ids := GroupIds(latest);
    var cs := Candidates(latest);
    forall c | c in cs ensures RowsOf(latest, c.id) != [] && c == CandidateOf(latest, c.id) {
      var k :| 0 <= k < |cs| && cs[k] == c;
      assert c.id == ids[k];
    }
  }

  lemma CandidatesCoverRows(latest: seq<LongRow>)
    ensures forall r :: r in latest ==> exists c :: c in Candidates(latest) && c.id == r.id
  {
    StrLessIsStrictTotal();
    var ids := GroupIds(latest);
    var cs := Candidates(latest);
    forall r | r in latest ensures exists c :: c in cs && c.id == r.id {
      assert r.id in Ids(latest);
      var k :| 0 <= k < |ids| && ids[k] == r.id;
      var c := cs[k];
      assert c in cs && c.id == r.id;
    }
  }

  function CandidateIds(cs: seq<Candidate>): (r: seq<string>)
    ensures |r| == |cs| && forall k :: 0 <= k < |cs| ==> r[k] == cs[k].id
  {
    seq(|cs|, k requires 0 <= k < |cs| => cs[k].id)
  }

  /** `nlargest` order: a larger present total comes first. */
  predicate Larger(a: Candidate, b: Candidate) {
    a.total.Some? && b.total.Some? && a.total.value > b.total.value
  }

  lemma LargerIsStrict()
    ensures IsStrictOrder(Larger)
  {
  }

  function Ranked(cs: seq<Candidate>): (r: seq<Candidate>)
    ensures |r| == |cs|
    ensures multiset(r) == multiset(cs)
    ensures SortedBy(r, Larger)
  {
    LargerIsStrict();
    var r := SortStable(cs, Larger);
    assert |r| == |multiset(r)| == |multiset(cs)| == |cs|;
    r
  }

  function Present(cs: seq<Candidate>): (r: seq<Candidate>)
    ensures forall c :: c in r <==> c in cs && c.total.Some?
  {
    if cs == [] then []
    else Present(cs[..|cs| - 1]) + (if cs[|cs| - 1].total.Some? then [cs[|cs| - 1]] else [])
  }

  /**
   * `nlargest(50, 'total_seasonal_points')`: the candidates with a present
   * total, largest first (ties keep id order), at most 50 of them.
   */
  function TopPlayers(latest: seq<LongRow>): seq<Candidate> {
    var r := Ranked(Present(Candidates(latest)));
    if |r| <= TopCount then r else r[..TopCount]
  }

  lemma TopFromPresent(latest: seq<LongRow>)
    ensures var top, r := TopPlayers(latest), Ranked(Present(Candidates(latest)));
      |top| <= TopCount && |top| <= |r| && top == r[..|top|]
    ensures forall c :: c in TopPlayers(latest) ==> c in Present(Candidates(latest))
  {
    var p := Present(Candidates(latest));
    var r := Ranked(p);
    var top := TopPlayers(latest);
    assert top == r[..|top|];
    forall c | c in top ensures c in p {
      SameElements(r, p, c);
    }
  }

  lemma TopSize(latest: seq<LongRow>)
    ensures var n := |Present(Candidates(latest))|;
      |TopPlayers(latest)| == if n <= TopCount then n else TopCount
  {
    var p := Present(Candidates(latest));
    assert |Ranked(p)| == |p|;
  }

  /** A permutation has the same elements. */
  lemma SameElements<T>(r: seq<T>, p: seq<T>, x: T)
    requires multiset(r) == multiset(p)
    ensures x in r <==> x in p
  {
    assert x in r <==> x in multiset(r);
    assert x in p <==> x in multiset(p);
  }

  /** In a sequence sorted by `Larger`, an element past the first `n` is not larger than one among them. */
  lemma PrefixBeatsRest(r: seq<Candidate>, n: nat, c: Candidate, s: Candidate)
    requires SortedBy(r, Larger) && n <= |r|
    requires c in r && c !in r[..n] && s in r[..n]
    ensures !Larger(c, s)
  {
    var j :| 0 <= j < |r| && r[j] == c;
    var i :| 0 <= i < n && r[..n][i] == s;
    assert forall k :: 0 <= k < n ==> r[k] == r[..n][k] != c;
    assert r[i] == s;
  }

  lemma TopDistinct(latest: seq<LongRow>)
    ensures var top := TopPlayers(latest);
      forall i, j :: 0 <= i < j < |top| ==> top[i].id != top[j].id
  {
    var cs := Candidates(latest);
    var p := Present(cs);
    var r := Ranked(p);
    var top := TopPlayers(latest);
    TopFromPresent(latest);
    CandidatesSpec(latest);
    StrLessIsStrictTotal();
    forall i, j | 0 <= i < j < |CandidateIds(cs)| ensures CandidateIds(cs)[i] != CandidateIds(cs)[j] {
      StrictlySortedDistinct(CandidateIds(cs), StrLess, i, j);
    }
    PresentDistinct(cs);
    DistinctPermutation(p, r);
    forall i, j | 0 <= i < j < |top| ensures top[i].id != top[j].id {
      // candidates with the same id are the same candidate, which occurs once
      assert top[i] == r[i] && top[j] == r[j];
      assert top[i] in p && top[j] in p;
    }
  }

  lemma TopOrdered(latest: seq<LongRow>)
    ensures var top := TopPlayers(latest);
      forall i, j :: 0 <= i < j < |top| ==> top[i].total.Some? && top[j].total.Some? && top[j].total.value <= top[i].total.value
  {
    var r := Ranked(Present(Candidates(latest)));
    var top := TopPlayers(latest);
    TopFromPresent(latest);
    forall i, j | 0 <= i < j < |top| ensures top[i].total.Some? && top[j].total.Some? && top[j].total.value <= top[i].total.value {
      assert top[i] == r[i] && top[j] == r[j];
      assert !Larger(r[j], r[i]);
    }
  }

  lemma TopBeatsRest(latest: seq<LongRow>, c: Candidate, s: Candidate)
    requires c in Candidates(latest) && c !in TopPlayers(latest) && s in TopPlayers(latest) && c.total.Some?
    ensures s.total.Some? && c.total.value <= s.total.value
  {
    var p := Present(Candidates(latest));
    var r := Ranked(p);
    var top := TopPlayers(latest);
    TopFromPresent(latest);
    assert c in p;
    SameElements(r, p, c);
    PrefixBeatsRest(r, |top|, c, s);
  }

  /**
   * 50 ids are selected, or every id with a present total when there are
   * fewer, each a 2024 id with a present total, no id
   * twice, largest first; and no unselected 2024 id has a larger total
   * than a selected one.
   */
  lemma TopPlayersSpec(latest: seq<LongRow>)
    ensures var top, n := TopPlayers(latest), |Present(Candidates(latest))|;
      && |top| == (if n <= TopCount then n else TopCount)
      && (forall c :: c in top ==> c.total.Some? && RowsOf(latest, c.id) != [] && c == CandidateOf(latest, c.id))
      && (forall i, j :: 0 <= i < j < |top| ==> top[i].id != top[j].id)
      && (forall i, j :: 0 <= i < j < |top| ==> top[i].total.Some? && top[j].total.Some? && top[j].total.value <= top[i].total.value)
      && (forall c, s :: c in Candidates(latest) && c !in top && s in top && c.total.Some? ==>
            s.total.Some? && c.total.value <= s.total.value)
  {
    var top, n := TopPlayers(latest), |Present(Candidates(latest))|;
    TopSize(latest);
    assert |top| == (if n <= TopCount then n else TopCount);
    TopAreCandidates(latest);
    assert forall c :: c in top ==> c.total.Some? && RowsOf(latest, c.id) != [] && c == CandidateOf(latest, c.id);
    TopDistinct(latest);
    assert forall i, j :: 0 <= i < j < |top| ==> top[i].id != top[j].id;
    TopOrdered(latest);
    TopBeatsAll(latest);
  }

  lemma TopAreCandidates(latest: seq<LongRow>)
    ensures forall c :: c in TopPlayers(latest) ==> c.total.Some? && RowsOf(latest, c.id) != [] && c == CandidateOf(latest, c.id)
  {
    CandidatesSpec(latest);
    TopFromPresent(latest);
  }

  lemma TopBeatsAll(latest: seq<LongRow>)
    ensures forall c, s :: c in Candidates(latest) && c !in TopPlayers(latest) && s in TopPlayers(latest) && c.total.Some? ==>
      s.total.Some? && c.total.value <= s.total.value
  {
    forall c, s | c in Candidates(latest) && c !in TopPlayers(latest) && s in TopPlayers(latest) && c.total.Some?
      ensures s.total.Some? && c.total.value <= s.total.value
    {
      TopBeatsRest(latest, c, s);
    }
  }

  /** Candidates with pairwise different ids stay pairwise different after filtering. */
  lemma {:induction false} PresentDistinct(cs: seq<Candidate>)
    requires Distinct(CandidateIds(cs))
    ensures Distinct(Present(cs))
  {
    if cs != [] {
      var p, x := cs[..|cs| - 1], cs[|cs| - 1];
      assert CandidateIds(p) == CandidateIds(cs)[..|cs| - 1];
      PresentDistinct(p);
      var q := Present(p);
      forall c | c in q ensures c != x {
        var k :| 0 <= k < |p| && p[k] == c;
        assert CandidateIds(cs)[k] != CandidateIds(cs)[|cs| - 1];
      }
      if x.total.Some? {
        forall i, j | 0 <= i < j < |q + [x]| ensures (q + [x])[i] != (q + [x])[j] {
          if j == |q| {
            assert (q + [x])[i] in q;
          }
        }
      }
    }
  }

  // ---------------------------------------------------------------------
  // Momentum
  // ---------------------------------------------------------------------

  function Pow(b: real, n: nat): real {
    if n == 0 then 1.0 else b * Pow(b, n - 1)
  }

  /** `decay_factor ** (latest_year - yr)`; a season after 2024 would weigh more than 1. */
  function Weight(year: int): real {
    if year <= LatestYear then Pow(Decay, LatestYear - year) else Pow(1.0 / Decay, year - LatestYear)
  }

  /** The weight is 1 in 2024 and shrinks by 4/5 with each earlier season. */
  lemma {:induction false} WeightDecays(year: int)
    requires year <= LatestYear
    ensures 0.0 < Weight(year) <= 1.0
    ensures Weight(LatestYear) == 1.0
    ensures Weight(year - 1) == Decay * Weight(year)
    decreases LatestYear - year
  {
    if year < LatestYear {
      WeightDecays(year + 1);
    }
  }

  /** `groupby('season_year')[v].sum()` for one season. */
  function YearSum(h: seq<LongRow>, year: int, v: LongRow -> real): real {
    if h == [] then 0.0
    else YearSum(h[..|h| - 1], year, v) + (if h[|h| - 1].year == year then v(h[|h| - 1]) else 0.0)
  }

  /** The generator sum over the seasons `ys`: each season's sum times its weight. */
  function SumOverYears(ys: seq<int>, h: seq<LongRow>, v: LongRow -> real, w: int -> real): real {
    if ys == [] then 0.0 else YearSum(h, ys[0], v) * w(ys[0]) + SumOverYears(ys[1..], h, v, w)
  }

  /** The reference sum: every entry's value times the weight of its own season. */
  function WeightedSum(h: seq<LongRow>, v: LongRow -> real, w: int -> real): real {
    if h == [] then 0.0
    else WeightedSum(h[..|h| - 1], v, w) + v(h[|h| - 1]) * w(h[|h| - 1].year)
  }

  /** Decay-weighted momentum: the seasons in ascending order, each season's summed points times its weight. */
  function Momentum(h: seq<LongRow>): real {
    var ys := SortedKeys(Years(h), IntLess);
    SumOverYears(ys, h, Points, Weight)
  }

  lemma YearSumSnoc(h: seq<LongRow>, r: LongRow, year: int, v: LongRow -> real)
    ensures YearSum(h + [r], year, v) == YearSum(h, year, v) + (if r.year == year then v(r) else 0.0)
  {
    assert (h + [r])[..|h|] == h;
  }

  /**
   * The arithmetic of one season in `SumOverYearsSnoc`: the new entry adds
   * `e` to this season's sum or `extra` to the later seasons, not both.
   */
  lemma SnocStep(a: real, e: real, wy: real, tail: real, extra: real, add: real)
    requires (e == 0.0 && add == extra) || (extra == 0.0 && add == e * wy)
    ensures (a + e) * wy + (tail + extra) == a * wy + tail + add
  {
    assert (a + e) * wy == a * wy + e * wy;
  }

  lemma {:induction false} SumOverYearsSnoc(ys: seq<int>, h: seq<LongRow>, r: LongRow, v: LongRow -> real, w: int -> real)
    requires Distinct(ys)
    ensures SumOverYears(ys, h + [r], v, w) == SumOverYears(ys, h, v, w) + (if r.year in ys then v(r) * w(r.year) else 0.0)
  {
    if ys != [] {
      var y, rest := ys[0], ys[1..];
      assert Distinct(rest);
      SumOverYearsSnoc(rest, h, r, v, w);
      YearSumSnoc(h, r, y, v);
      var e := if r.year == y then v(r) else 0.0;
      var extra := if r.year in rest then v(r) * w(r.year) else 0.0;
      var add := if r.year in ys then v(r) * w(r.year) else 0.0;
      assert y !in rest;
      SnocStep(YearSum(h, y, v), e, w(y), SumOverYears(rest, h, v, w), extra, add);
    }
  }

  lemma {:induction false} SumOverYearsEmpty(ys: seq<int>, v: LongRow -> real, w: int -> real)
    ensures SumOverYears(ys, [], v, w) == 0.0
  {
    if ys != [] {
      SumOverYearsEmpty(ys[1..], v, w);
    }
  }

  lemma WeightedSumSnoc(h: seq<LongRow>, r: LongRow, v: LongRow -> real, w: int -> real)
    ensures WeightedSum(h + [r], v, w) == WeightedSum(h, v, w) + v(r) * w(r.year)
  {
    assert (h + [r])[..|h|] == h;
  }

  lemma {:induction false} SumOverAllYears(ys: seq<int>, h: seq<LongRow>, v: LongRow -> real, w: int -> real)
    requires Distinct(ys)
    requires forall r :: r in h ==> r.year in ys
    ensures SumOverYears(ys, h, v, w) == WeightedSum(h, v, w)
  {
    if h == [] {
      SumOverYearsEmpty(ys, v, w);
    } else {
      var p, r := h[..|h| - 1], h[|h| - 1];
      assert h == p + [r];
      assert r in h;
      assert forall x :: x in p ==> x in h;
      SumOverAllYears(ys, p, v, w);
      SumOverYearsSnoc(ys, p, r, v, w);
      WeightedSumSnoc(p, r, v, w);
      assert r.year in ys;
    }
  }

  /**
   * Summing each season's points first and weighting the season sums gives
   * the same momentum as weighting every entry by its own season.
   */
  lemma MomentumIsWeightedPoints(h: seq<LongRow>)
    ensures Momentum(h) == WeightedSum(h, Points, Weight)
  {
    assert IsStrictOrder(IntLess) && IsTotal(IntLess);
    var ys := SortedKeys(Years(h), IntLess);
    forall i, j | 0 <= i < j < |ys| ensures ys[i] != ys[j] {
      StrictlySortedDistinct(ys, IntLess, i, j);
    }
    SumOverAllYears(ys, h, Points, Weight);
  }

  // ---------------------------------------------------------------------
  // Volatility and pressure
  // ---------------------------------------------------------------------

  function PointsOf(h: seq<LongRow>): (ps: seq<real>)
    ensures |ps| == |h|
  {
    seq(|h|, i requires 0 <= i < |h| => Points(h[i]))
  }

  function Sum(xs: seq<real>): real {
    if xs == [] then 0.0 else Sum(xs[..|xs| - 1]) + xs[|xs| - 1]
  }

  function Times(a: real, b: real): real {
    a * b
  }

  /** `d ** 2`, kept behind `Times` so that its sign is argued once, below. */
  function Square(d: real): real {
    Times(d, d)
  }

  function SquaredDeviations(xs: seq<real>, mean: real): real {
    if xs == [] then 0.0 else SquaredDeviations(xs[..|xs| - 1], mean) + Square(xs[|xs| - 1] - mean)
  }

  lemma {:induction false} SquaredDeviationsNonNegative(xs: seq<real>, mean: real)
    ensures SquaredDeviations(xs, mean) >= 0.0
  {
    if xs != [] {
      SquaredDeviationsNonNegative(xs[..|xs| - 1], mean);
      SquareSign(xs[|xs| - 1] - mean);
    }
  }

  /**
   * `history_points.std()` (sample, ddof = 1) when there are at least two
   * entries, NaN otherwise; the square root is not taken here, so the
   * value is the sample variance.
   */
  function Volatility(h: seq<LongRow>): (v: Option<real>)
    ensures v.Some? <==> |h| >= 2
  {
    if |h| >= 2 then
      var ps := PointsOf(h);
      var mean := Sum(ps) / (|ps| as real);
      Some(SquaredDeviations(ps, mean) / ((|ps| - 1) as real))
    else None
  }

  lemma VolatilityNonNegative(h: seq<LongRow>)
    requires |h| >= 2
    ensures Volatility(h).value >= 0.0
  {
    var ps := PointsOf(h);
    SquaredDeviationsNonNegative(ps, Sum(ps) / (|ps| as real));
  }

  lemma {:induction false} SumConstant(xs: seq<real>, a: real)
    requires forall i :: 0 <= i < |xs| ==> xs[i] == a
    ensures Sum(xs) == |xs| as real * a
  {
    if xs != [] {
      SumConstant(xs[..|xs| - 1], a);
    }
  }

  lemma ProductPositive(x: real, y: real)
    requires x > 0.0 && y > 0.0
    ensures x * y > 0.0
  {
  }

  lemma ProductOfNegatives(x: real, y: real)
    requires x < 0.0 && y < 0.0
    ensures x * y > 0.0
  {
  }

  /** A square is never negative, and is zero only for zero. */
  lemma SquareSign(d: real)
    ensures Square(d) >= 0.0
    ensures Square(d) == 0.0 <==> d == 0.0
  {
    if d != 0.0 {
      SquareOfNonZero(d);
    }
  }

  lemma SquareOfNonZero(d: real)
    requires d != 0.0
    ensures Square(d) > 0.0
  {
    TimesPositive(d, d);
  }

  /** The product of two values of the same strict sign is positive. */
  lemma TimesPositive(a: real, b: real)
    requires (a > 0.0 && b > 0.0) || (a < 0.0 && b < 0.0)
    ensures Times(a, b) > 0.0
  {
    if a > 0.0 {
      ProductPositive(a, b);
    } else {
      ProductOfNegatives(a, b);
    }
  }

  lemma QuotientZero(v: real, c: real)
    requires c > 0.0
    ensures v / c == 0.0 <==> v == 0.0
  {
    if v / c == 0.0 {
      assert v == (v / c) * c;
    }
  }

  /** The squared deviations from `mean` vanish exactly when every value is `mean`. */
  lemma {:induction false} SquaredDeviationsZero(xs: seq<real>, mean: real)
    ensures SquaredDeviations(xs, mean) == 0.0 <==> forall i :: 0 <= i < |xs| ==> xs[i] == mean
  {
    if xs != [] {
      var p, d := xs[..|xs| - 1], xs[|xs| - 1] - mean;
      SquaredDeviationsZero(p, mean);
      SquaredDeviationsNonNegative(p, mean);
      SquareSign(d);
      assert forall i :: 0 <= i < |p| ==> xs[i] == p[i];
    }
  }

  /** The sample variance of two or more values is zero exactly when they are all equal. */
  lemma VarianceZero(ps: seq<real>)
    requires |ps| >= 2
    ensures var n := |ps| as real;
      SquaredDeviations(ps, Sum(ps) / n) / (n - 1.0) == 0.0 <==> forall i :: 0 <= i < |ps| ==> ps[i] == ps[0]
  {
    var n := |ps| as real;
    var mean := Sum(ps) / n;
    QuotientZero(SquaredDeviations(ps, mean), n - 1.0);
    SquaredDeviationsZero(ps, mean);
    if forall i :: 0 <= i < |ps| ==> ps[i] == ps[0] {
      MeanOfConstant(ps);
    }
  }

  lemma MeanOfConstant(ps: seq<real>)
    requires ps != [] && forall i :: 0 <= i < |ps| ==> ps[i] == ps[0]
    ensures Sum(ps) / (|ps| as real) == ps[0]
  {
    SumConstant(ps, ps[0]);
    QuotientOfMultiple(|ps| as real, ps[0]);
  }

  lemma QuotientOfMultiple(n: real, a: real)
    requires n > 0.0
    ensures (n * a) / n == a
  {
  }

  /**
   * The volatility is zero exactly when there are at least two entries and
   * every entry scored the same points.
   */
  lemma VolatilityZeroIffConstant(h: seq<LongRow>)
    ensures Volatility(h) == Some(0.0) <==> |h| >= 2 && forall i :: 0 <= i < |h| ==> Points(h[i]) == Points(h[0])
  {
    if |h| >= 2 {
      var ps := PointsOf(h);
      VarianceZero(ps);
      assert forall i :: 0 <= i < |h| ==> ps[i] == Points(h[i]);
    }
  }

  /** `2.0 if 'Senior' in str(tournament_name) else 1.0`. */
  function PressureFactor(r: LongRow): real {
    if Contains(r.tournament, "Senior") then 2.0 else 1.0
  }

  /** The weighted pressure score over a player's 2024 entries. */
  function Pressure(latest: seq<LongRow>): real {
    if latest == [] then 0.0
    else Pressure(latest[..|latest| - 1]) + Points(latest[|latest| - 1]) * PressureFactor(latest[|latest| - 1])
  }

  function PointSum(h: seq<LongRow>): real {
    if h == [] then 0.0 else PointSum(h[..|h| - 1]) + Points(h[|h| - 1])
  }

  /** With non-negative points the pressure lies between the point sum and twice it. */
  lemma {:induction false} PressureBounds(latest: seq<LongRow>)
    requires forall r :: r in latest ==> Points(r) >= 0.0
    ensures PointSum(latest) <= Pressure(latest) <= 2.0 * PointSum(latest)
  {
    if latest != [] {
      var p := latest[..|latest| - 1];
      assert forall r :: r in p ==> r in latest;
      PressureBounds(p);
      assert latest[|latest| - 1] in latest;
    }
  }

  /** Without a "Senior" tournament the pressure is the plain point sum. */
  lemma {:induction false} PressureWithoutSenior(latest: seq<LongRow>)
    requires forall r :: r in latest ==> !Contains(r.tournament, "Senior")
    ensures Pressure(latest) == PointSum(latest)
  {
    if latest != [] {
      var p := latest[..|latest| - 1];
      assert forall r :: r in p ==> r in latest;
      PressureWithoutSenior(p);
      assert latest[|latest| - 1] in latest;
    }
  }

  // ---------------------------------------------------------------------
  // Feature records
  // ---------------------------------------------------------------------

  /** One record of `features_master.csv` (the rounding to 2 decimals is not modelled). */
  datatype FeatureRow = FeatureRow(
    id: string, name: string, institution: string, momentum: real,
    volatility: Option<real>, pressure: real, totalPoints: real)

  /** The feature record of one selected player; `df` is the normalised table. */
  function FeatureOf(df: seq<LongRow>, c: Candidate): FeatureRow {
    var history := RowsOf(df, c.id);
    var latestSeason := RowsOfYear(history, LatestYear);
    FeatureRow(
      c.id, c.name,
      if latestSeason != [] then latestSeason[0].institution else "N/A",
      Momentum(history), Volatility(history), Pressure(latestSeason),
      c.total.GetOr(0.0))
  }

  function FeaturesFor(df: seq<LongRow>, top: seq<Candidate>): (fs: seq<FeatureRow>)
    ensures |fs| == |top|
  {
    seq(|top|, k requires 0 <= k < |top| => FeatureOf(df, top[k]))
  }

  /** The whole pipeline; `None` when there is no 2024 row and nothing is written. */
  function Features(df: seq<LongRow>): Option<seq<FeatureRow>> {
    var n := NormalizeIds(df);
    var latest := RowsOfYear(n, LatestYear);
    if latest == [] then None else Some(FeaturesFor(n, TopPlayers(latest)))
  }

  lemma FeaturesForSnoc(df: seq<LongRow>, top: seq<Candidate>, k: nat)
    requires k < |top|
    ensures FeaturesFor(df, top[..k + 1]) == FeaturesFor(df, top[..k]) + [FeatureOf(df, top[k])]
  {
    var a, b := FeaturesFor(df, top[..k + 1]), FeaturesFor(df, top[..k]) + [FeatureOf(df, top[k])];
    forall j | 0 <= j < |a| ensures a[j] == b[j] {
      assert top[..k + 1][j] == top[j];
      if j < k {
        assert top[..k][j] == top[j];
      }
    }
  }

  /** The `for pid in top_50_ids` loop: one record appended per selected player. */
  method BuildFeatures(df: seq<LongRow>, top: seq<Candidate>) returns (results: seq<FeatureRow>)
    ensures results == FeaturesFor(df, top)
  {
    results := [];
    var k := 0;
    while k < |top|
      invariant 0 <= k <= |top|
      invariant results == FeaturesFor(df, top[..k])
    {
      FeaturesForSnoc(df, top, k);
      results := results + [FeatureOf(df, top[k])];
      k := k + 1;
    }
    assert top[..k] == top;
  }

  /** `run_advanced_feature_pipeline` up to the CSV export. */
  method RunFeaturePipeline(df: seq<LongRow>) returns (r: Option<seq<FeatureRow>>)
    ensures r == Features(df)
  {
    var n := NormalizeIds(df);
    var latest := RowsOfYear(n, LatestYear);
    if latest == [] {
      return None;
    }
    var results := BuildFeatures(n, TopPlayers(latest));
    return Some(results);
  }

  /** Normalising ids keeps every row's season, so a 2024 row survives it. */
  lemma Latest2024Rows(df: seq<LongRow>)
    ensures |RowsOfYear(NormalizeIds(df), LatestYear)| > 0 <==> exists r :: r in df && r.year == LatestYear
  {
    var n := NormalizeIds(df);
    assert forall i :: 0 <= i < |n| ==> n[i].year == df[i].year;
    YearPresent(n, LatestYear);
    SameYearsPresent(n, df, LatestYear);
  }

  /** Nothing is produced exactly when the table has no 2024 row. */
  lemma FeaturesNoneWithout2024(df: seq<LongRow>)
    ensures Features(df).None? <==> forall r :: r in df ==> r.year != LatestYear
  {
    Latest2024Rows(df);
  }

  /**
   * The record of a selected player carries its id and maximum 2024 total,
   * the institution of its first 2024 entry (never "N/A", since it was
   * selected from the 2024 rows), the entry-weighted momentum, a
   * volatility exactly when it has two or more entries, the name of its
   * candidate and the pressure of its 2024 entries.
   */
  lemma SelectedFeature(n: seq<LongRow>, c: Candidate)
    requires c in TopPlayers(RowsOfYear(n, LatestYear))
    ensures var f, history := FeatureOf(n, c), RowsOf(n, c.id);
      && f.id == c.id
      && c.total == Some(f.totalPoints)
      && RowsOfYear(history, LatestYear) != []
      && f.institution == RowsOfYear(history, LatestYear)[0].institution
      && f.momentum == WeightedSum(history, Points, Weight)
      && (f.volatility.Some? <==> |history| >= 2)
      && f.name == CandidateOf(RowsOfYear(n, LatestYear), c.id).name
      && f.pressure == Pressure(RowsOfYear(history, LatestYear))
  {
    var latest := RowsOfYear(n, LatestYear);
    TopPlayersSpec(latest);
    var g := RowsOf(latest, c.id);
    assert g[0] in g;
    assert g[0] in RowsOfYear(RowsOf(n, c.id), LatestYear);
    MomentumIsWeightedPoints(RowsOf(n, c.id));
  }

  /**
   * When there is a 2024 row, there is one record per selected id, in
   * selection order, at most 50, each as `SelectedFeature` describes.
   */
  lemma FeaturesSpec(df: seq<LongRow>)
    requires exists r :: r in df && r.year == LatestYear
    ensures Features(df).Some?
    ensures var n := NormalizeIds(df);
      var top := TopPlayers(RowsOfYear(n, LatestYear));
      var fs := Features(df).value;
      && |fs| == |top| <= TopCount
      && (forall k :: 0 <= k < |fs| ==> fs[k] == FeatureOf(n, top[k]) && fs[k].id == top[k].id)
      && (forall i, j :: 0 <= i < j < |fs| ==> fs[i].id != fs[j].id)
  {
    Latest2024Rows(df);
    var n := NormalizeIds(df);
    var latest := RowsOfYear(n, LatestYear);
    var top := TopPlayers(latest);
    TopFromPresent(latest);
    TopDistinct(latest);
    assert Features(df) == Some(FeaturesFor(n, top));
  }
}

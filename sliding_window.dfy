/**
 * `create_advanced_sliding_window`: the annual table (one row per player,
 * name and season, holding the season's maximum seasonal total), ordered
 * by (id, year), with per-player lags 1 to 3, the year-on-year momentum,
 * and only the rows that have a third lag.
 */
module SlidingWindow {
  import opened Wrappers
  import opened Ordering
  import opened LongTable

  /** The `groupby(['ttfi_id', 'player_name', 'season_year'])` key of a row. */
  datatype AnnualKey = AnnualKey(id: string, name: string, year: int)

  datatype AnnualRow = AnnualRow(id: string, name: string, year: int, seasonTotal: Option<real>, institution: string)

  /** An annual row with its lags and momentum; `None` is NaN. */
  datatype WindowRow = WindowRow(annual: AnnualRow, lag1: Option<real>, lag2: Option<real>, lag3: Option<real>, momentum: Option<real>)

  function KeyOf(r: LongRow): AnnualKey {
    AnnualKey(r.id, r.name, r.year)
  }

  function AnnualKeyOf(a: AnnualRow): AnnualKey {
    AnnualKey(a.id, a.name, a.year)
  }

  /** The order `groupby` lists its groups in: by id, then name, then year. */
  predicate KeyLess(a: AnnualKey, b: AnnualKey) {
    || StrLess(a.id, b.id)
    || (a.id == b.id && StrLess(a.name, b.name))
    || (a.id == b.id && a.name == b.name && a.year < b.year)
  }

  /** `sort_values(['ttfi_id', 'season_year'])`. */
  predicate IdYearBefore(a: AnnualRow, b: AnnualRow) {
    StrLess(a.id, b.id) || (a.id == b.id && a.year < b.year)
  }

  lemma KeyLessIsStrictTotal()
    ensures IsStrictOrder(KeyLess) && IsTotal(KeyLess)
  {
    StrLessIsStrictTotal();
  }

  lemma IdYearBeforeIsStrict()
    ensures IsStrictOrder(IdYearBefore)
  {
    StrLessIsStrictTotal();
  }

  /** The entries of one (id, name, year) group, in table order. */
  function Group(rows: seq<LongRow>, k: AnnualKey): (g: seq<LongRow>)
    ensures forall r :: r in g <==> r in rows && KeyOf(r) == k
  {
    if rows == [] then []
    else Group(rows[..|rows| - 1], k) + (if KeyOf(rows[|rows| - 1]) == k then [rows[|rows| - 1]] else [])
  }

  /** The aggregate of one non-empty group: maximum total, first institution that is not missing. */
  function Aggregate(rows: seq<LongRow>, k: AnnualKey): AnnualRow
    requires Group(rows, k) != []
  {
    AnnualRow(k.id, k.name, k.year, MaxTotal(Group(rows, k)), FirstPresent(Institutions(Group(rows, k))))
  }

  function AggregateAll(rows: seq<LongRow>, keys: seq<AnnualKey>): (r: seq<AnnualRow>)
    requires forall k :: k in keys ==> Group(rows, k) != []
    ensures |r| == |keys|
    ensures forall i :: 0 <= i < |r| ==> r[i] == Aggregate(rows, keys[i])
  {
    if keys == [] then []
    else [Aggregate(rows, keys[0])] + AggregateAll(rows, keys[1..])
  }

  /**
   * A key with a missing part: an empty id or name cell is read back as
   * missing, and `groupby` leaves such rows out.
   */
  predicate KeyPresent(k: AnnualKey) {
    k.id != "" && k.name != ""
  }

  /** The keys of the rows whose key has no missing part, in table order. */
  function PresentKeys(rows: seq<LongRow>): (ks: seq<AnnualKey>)
    ensures forall k :: k in ks <==> KeyPresent(k) && exists r :: r in rows && KeyOf(r) == k
  {
    if rows == [] then []
    else
      var p, last := rows[..|rows| - 1], rows[|rows| - 1];
      assert forall r :: r in rows <==> r in p || r == last;
      PresentKeys(p) + (if KeyPresent(KeyOf(last)) then [KeyOf(last)] else [])
  }

  /** The group keys, in `groupby` order. */
  function GroupKeys(rows: seq<LongRow>): (ks: seq<AnnualKey>)
    ensures StrictlySorted(ks, KeyLess)
    ensures forall k :: k in ks <==> KeyPresent(k) && exists r :: r in rows && KeyOf(r) == k
  {
    KeyLessIsStrictTotal();
    SortedKeys(PresentKeys(rows), KeyLess)
  }

  /** The aggregated groups, before the sort by (id, year). */
  function Aggregated(rows: seq<LongRow>): (g: seq<AnnualRow>)
    ensures |g| == |GroupKeys(rows)|
    ensures forall i :: 0 <= i < |g| ==> Group(rows, GroupKeys(rows)[i]) != [] && g[i] == Aggregate(rows, GroupKeys(rows)[i])
  {
    var ks := GroupKeys(rows);
    assert forall k :: k in ks ==> Group(rows, k) != [] by {
      forall k | k in ks ensures Group(rows, k) != [] {
        var r :| r in rows && KeyOf(r) == k;
        assert r in Group(rows, k);
      }
    }
    AggregateAll(rows, ks)
  }

  /** The annual table: groups aggregated, then sorted by (id, year). */
  function AnnualTable(rows: seq<LongRow>): (t: seq<AnnualRow>)
    ensures SortedBy(t, IdYearBefore)
    ensures multiset(t) == multiset(Aggregated(rows))
  {
    IdYearBeforeIsStrict();
    SortStable(Aggregated(rows), IdYearBefore)
  }

  lemma AggregatedDistinct(rows: seq<LongRow>)
    ensures Distinct(Aggregated(rows))
  {
    var ks, g := GroupKeys(rows), Aggregated(rows);
    KeyLessIsStrictTotal();
    forall i, j | 0 <= i < j < |g| ensures g[i] != g[j] {
      StrictlySortedDistinct(ks, KeyLess, i, j);
      assert AnnualKeyOf(g[i]) == ks[i] && AnnualKeyOf(g[j]) == ks[j];
    }
  }

  /** Every annual row is the aggregate of its own group, whose key has no missing part. */
  lemma AnnualRowsAreAggregates(rows: seq<LongRow>)
    ensures forall a :: a in AnnualTable(rows) ==>
      KeyPresent(AnnualKeyOf(a)) && Group(rows, AnnualKeyOf(a)) != [] && a == Aggregate(rows, AnnualKeyOf(a))
  {
    var t, g, ks := AnnualTable(rows), Aggregated(rows), GroupKeys(rows);
    forall a | a in t ensures KeyPresent(AnnualKeyOf(a)) && Group(rows, AnnualKeyOf(a)) != [] && a == Aggregate(rows, AnnualKeyOf(a)) {
      assert a in multiset(t);
      assert a in g;
      var i :| 0 <= i < |g| && g[i] == a;
      assert ks[i] in ks;
    }
  }

  /** Every group of the long table without a missing key part has a row in the annual table. */
  lemma AnnualTableCoversGroups(rows: seq<LongRow>)
    ensures forall r :: r in rows && KeyPresent(KeyOf(r)) ==> exists a :: a in AnnualTable(rows) && AnnualKeyOf(a) == KeyOf(r)
  {
    var ks, t, g := GroupKeys(rows), AnnualTable(rows), Aggregated(rows);
    forall r | r in rows && KeyPresent(KeyOf(r)) ensures exists a :: a in t && AnnualKeyOf(a) == KeyOf(r) {
      var k := KeyOf(r);
      assert k in ks;
      var i :| 0 <= i < |ks| && ks[i] == k;
      assert g[i] in multiset(g);
      assert g[i] in t;
    }
  }

  /**
   * The annual table has exactly one row per (id, name, year) group of the
   * long table whose id and name are present, each the group's aggregate,
   * and it is ordered by (id, year).
   */
  lemma AnnualTableSpec(rows: seq<LongRow>)
    ensures var t := AnnualTable(rows);
      && SortedBy(t, IdYearBefore)
      && (forall i, j :: 0 <= i < j < |t| ==> AnnualKeyOf(t[i]) != AnnualKeyOf(t[j]))
      && (forall r :: r in rows && r.id != "" && r.name != "" ==> exists a :: a in t && AnnualKeyOf(a) == KeyOf(r))
      && (forall a :: a in t ==> a.id != "" && a.name != "" && Group(rows, AnnualKeyOf(a)) != [] && a == Aggregate(rows, AnnualKeyOf(a)))
  {
    var t := AnnualTable(rows);
    AggregatedDistinct(rows);
    DistinctPermutation(Aggregated(rows), t);
    AnnualRowsAreAggregates(rows);
    AnnualTableCoversGroups(rows);
    forall i, j | 0 <= i < j < |t| ensures AnnualKeyOf(t[i]) != AnnualKeyOf(t[j]) {
      assert t[i] in t && t[j] in t;
    }
  }

  /**
   * A group's row carries the group's first institution that is not
   * missing: it is missing only when every entry's is, and otherwise every
   * entry before the one it comes from has none.
   */
  lemma AggregateInstitution(rows: seq<LongRow>, k: AnnualKey)
    requires Group(rows, k) != []
    ensures var g, v := Group(rows, k), Aggregate(rows, k).institution;
      && (v == "" <==> forall i :: 0 <= i < |g| ==> g[i].institution == "")
      && (v != "" ==> exists i :: 0 <= i < |g| && g[i].institution == v && forall j :: 0 <= j < i ==> g[j].institution == "")
  {
    var g := Group(rows, k);
    var xs, v := Institutions(g), Aggregate(rows, k).institution;
    if v != "" {
      FirstPresentIsFirst(xs);
      var i :| 0 <= i < |xs| && xs[i] == v && forall j :: 0 <= j < i ==> xs[j] == "";
      assert g[i].institution == v;
    }
  }

  /** A group's row carries the largest total among the group's entries, and that total occurs. */
  lemma AnnualTotalIsGroupMax(rows: seq<LongRow>, a: AnnualRow)
    requires a in AnnualTable(rows)
    ensures a.seasonTotal.None? <==> forall r :: r in rows && KeyOf(r) == AnnualKeyOf(a) ==> r.seasonTotal.None?
    ensures a.seasonTotal.Some? ==> exists r :: r in rows && KeyOf(r) == AnnualKeyOf(a) && r.seasonTotal == a.seasonTotal
    ensures forall r :: r in rows && KeyOf(r) == AnnualKeyOf(a) && r.seasonTotal.Some? ==>
      a.seasonTotal.Some? && r.seasonTotal.value <= a.seasonTotal.value
  {
    AnnualTableSpec(rows);
  }

  // ---------------------------------------------------------------------
  // Lags and momentum
  // ---------------------------------------------------------------------

  /** The totals of the rows of `id` in `prefix`, in order: what `groupby('ttfi_id').shift` looks back over. */
  function History(prefix: seq<AnnualRow>, id: string): (h: seq<Option<real>>)
    ensures |h| <= |prefix|
  {
    if prefix == [] then []
    else
      var last := prefix[|prefix| - 1];
      History(prefix[..|prefix| - 1], id) + (if last.id == id then [last.seasonTotal] else [])
  }

  /** `shift(k)` within the id: the k-th preceding total of the same id, NaN when there is none. */
  function Lag(h: seq<Option<real>>, k: nat): Option<real> {
    if 1 <= k <= |h| then h[|h| - k] else None
  }

  /** `pts_lag_1 - pts_lag_2`, NaN when either is NaN. */
  function Momentum(lag1: Option<real>, lag2: Option<real>): (m: Option<real>)
    ensures m.Some? <==> lag1.Some? && lag2.Some?
    ensures m.Some? ==> m.value + lag2.value == lag1.value
  {
    if lag1.Some? && lag2.Some? then Some(lag1.value - lag2.value) else None
  }

  /** The window row of `a`, given the annual rows above it. */
  function WindowOf(prefix: seq<AnnualRow>, a: AnnualRow): WindowRow {
    var h := History(prefix, a.id);
    WindowRow(a, Lag(h, 1), Lag(h, 2), Lag(h, 3), Momentum(Lag(h, 1), Lag(h, 2)))
  }

  /** The annual table with its lag and momentum columns. */
  function Window(t: seq<AnnualRow>): (w: seq<WindowRow>)
    ensures |w| == |t|
  {
    if t == [] then []
    else Window(t[..|t| - 1]) + [WindowOf(t[..|t| - 1], t[|t| - 1])]
  }

  /** Row `i` of the window table is `t[i]` with the lags computed from the rows above it. */
  lemma {:induction false} WindowAt(t: seq<AnnualRow>, i: int)
    requires 0 <= i < |t|
    ensures Window(t)[i] == WindowOf(t[..i], t[i])
  {
    var p := t[..|t| - 1];
    if i < |p| {
      WindowAt(p, i);
      assert t[..i] == p[..i];
    }
  }

  /** `dropna(subset=['pts_lag_3'])`. */
  function Supervised(w: seq<WindowRow>): (s: seq<WindowRow>)
    ensures forall x :: x in s <==> x in w && x.lag3.Some?
  {
    if w == [] then []
    else Supervised(w[..|w| - 1]) + (if w[|w| - 1].lag3.Some? then [w[|w| - 1]] else [])
  }

  /** The whole builder: annual aggregation, lags, momentum and the lag-3 filter. */
  function SlidingWindowTable(rows: seq<LongRow>): seq<WindowRow> {
    Supervised(Window(AnnualTable(rows)))
  }

  // ---------------------------------------------------------------------
  // Properties of the lags and of the lag-3 filter
  // ---------------------------------------------------------------------

  function Totals(s: seq<AnnualRow>): (r: seq<Option<real>>)
    ensures |r| == |s|
    ensures forall j :: 0 <= j < |s| ==> r[j] == s[j].seasonTotal
  {
    seq(|s|, j requires 0 <= j < |s| => s[j].seasonTotal)
  }

  lemma {:induction false} HistoryConcat(a: seq<AnnualRow>, b: seq<AnnualRow>, id: string)
    ensures History(a + b, id) == History(a, id) + History(b, id)
  {
    if b == [] {
      assert a + b == a;
    } else {
      var b', x := b[..|b| - 1], b[|b| - 1];
      var tail := if x.id == id then [x.seasonTotal] else [];
      assert (a + b)[..|a + b| - 1] == a + b';
      assert (a + b)[|a + b| - 1] == x;
      assert History(a + b, id) == History(a + b', id) + tail;
      assert History(b, id) == History(b', id) + tail;
      HistoryConcat(a, b', id);
    }
  }

  lemma {:induction false} HistoryOfBlock(b: seq<AnnualRow>, id: string)
    requires forall j :: 0 <= j < |b| ==> b[j].id == id
    ensures History(b, id) == Totals(b)
  {
    if b != [] {
      HistoryOfBlock(b[..|b| - 1], id);
    }
  }

  lemma {:induction false} HistoryOfOthers(b: seq<AnnualRow>, id: string)
    requires forall j :: 0 <= j < |b| ==> b[j].id != id
    ensures History(b, id) == []
  {
    if b != [] {
      HistoryOfOthers(b[..|b| - 1], id);
    }
  }

  lemma StrTrichotomy(a: string, b: string)
    ensures a == b || StrLess(a, b) || StrLess(b, a)
  {
    if a != b {
      StrLessTotal(a, b);
    }
  }

  /** In a table sorted by (id, year) the rows of one id are contiguous. */
  lemma Contiguous(t: seq<AnnualRow>, a: int, j: int, b: int)
    requires SortedBy(t, IdYearBefore)
    requires 0 <= a <= j <= b < |t|
    ensures t[a].id == t[b].id ==> t[j].id == t[a].id
  {
    StrTrichotomy(t[j].id, t[a].id);
  }

  lemma LagInsideBlock(t: seq<AnnualRow>, i: int, k: nat)
    requires SortedBy(t, IdYearBefore)
    requires 1 <= k <= i < |t| && t[i - k].id == t[i].id
    ensures Lag(History(t[..i], t[i].id), k) == t[i - k].seasonTotal
  {
    var id := t[i].id;
    var a, b := t[..i - k], t[i - k..i];
    assert t[..i] == a + b;
    forall j | 0 <= j < |b| ensures b[j].id == id {
      Contiguous(t, i - k, i - k + j, i);
    }
    HistoryConcat(a, b, id);
    HistoryOfBlock(b, id);
  }

  lemma LagOutsideBlock(t: seq<AnnualRow>, i: int, k: nat)
    requires SortedBy(t, IdYearBefore)
    requires 0 <= i < |t| && 1 <= k
    requires k > i || t[i - k].id != t[i].id
    ensures Lag(History(t[..i], t[i].id), k) == None
  {
    var id := t[i].id;
    var m := if k > i then 0 else i - k + 1;
    var a, b := t[..m], t[m..i];
    assert t[..i] == a + b;
    HistoryConcat(a, b, id);
    OthersAbove(t, i, m);
    HistoryOfOthers(a, id);
    assert History(t[..i], id) == History(b, id);
    assert |History(b, id)| <= |b| < k;
  }

  /** Above a row of another id, a sorted table holds no row of `t[i].id`. */
  lemma OthersAbove(t: seq<AnnualRow>, i: int, m: int)
    requires SortedBy(t, IdYearBefore)
    requires 0 <= m <= i < |t| && (m > 0 ==> t[m - 1].id != t[i].id)
    ensures forall j :: 0 <= j < |t[..m]| ==> t[..m][j].id != t[i].id
  {
    forall j | 0 <= j < m ensures t[j].id != t[i].id {
      Contiguous(t, j, m - 1, i);
    }
  }

  /**
   * On the table sorted by (id, year), `shift(k)` is the total of the row
   * k places up when that row has the same id, and NaN otherwise; a
   * skipped season is not filled in.
   */
  lemma LagIsRowAbove(t: seq<AnnualRow>, i: int, k: nat)
    requires SortedBy(t, IdYearBefore)
    requires 0 <= i < |t| && 1 <= k
    ensures k <= i && t[i - k].id == t[i].id ==> Window(t)[i].annual == t[i] && Lag(History(t[..i], t[i].id), k) == t[i - k].seasonTotal
    ensures (k > i || t[i - k].id != t[i].id) ==> Lag(History(t[..i], t[i].id), k) == None
  {
    WindowAt(t, i);
    if k <= i && t[i - k].id == t[i].id {
      LagInsideBlock(t, i, k);
    } else {
      LagOutsideBlock(t, i, k);
    }
  }

  lemma {:induction false} HistoryPresent(prefix: seq<AnnualRow>, id: string)
    requires forall a :: a in prefix ==> a.seasonTotal.Some?
    ensures forall j :: 0 <= j < |History(prefix, id)| ==> History(prefix, id)[j].Some?
  {
    if prefix != [] {
      HistoryPresent(prefix[..|prefix| - 1], id);
    }
  }

  lemma WindowOfLags(prefix: seq<AnnualRow>, a: AnnualRow)
    ensures WindowOf(prefix, a).lag3.Some? ==> |History(prefix, a.id)| >= 3
    ensures (forall b :: b in prefix ==> b.seasonTotal.Some?) && WindowOf(prefix, a).lag3.Some? ==>
      var x := WindowOf(prefix, a);
      x.lag1.Some? && x.lag2.Some? && x.momentum.Some? && x.momentum.value == x.lag1.value - x.lag2.value
  {
    if forall b :: b in prefix ==> b.seasonTotal.Some? {
      HistoryPresent(prefix, a.id);
    }
  }

  /**
   * A row survives the filter only with a third lag, that is with at least
   * three earlier rows of its id; when every seasonal total is present, the
   * survivors also have lags 1 and 2 and a momentum equal to their
   * difference.
   */
  lemma SupervisedRowsHaveHistory(t: seq<AnnualRow>, x: WindowRow)
    requires x in Supervised(Window(t))
    ensures x.lag3.Some?
    ensures exists i :: 0 <= i < |t| && x.annual == t[i] && |History(t[..i], t[i].id)| >= 3
    ensures (forall a :: a in t ==> a.seasonTotal.Some?) ==>
      x.lag1.Some? && x.lag2.Some? && x.momentum.Some? && x.momentum.value == x.lag1.value - x.lag2.value
  {
    var w := Window(t);
    var i :| 0 <= i < |w| && w[i] == x;
    WindowAt(t, i);
    assert forall a :: a in t[..i] ==> a in t;
    WindowOfLags(t[..i], t[i]);
  }

  /** The number of rows of `id` in a window table. */
  function CountId(w: seq<WindowRow>, id: string): nat {
    if w == [] then 0 else CountId(w[..|w| - 1], id) + (if w[|w| - 1].annual.id == id then 1 else 0)
  }

  lemma WindowSnoc(t: seq<AnnualRow>)
    requires t != []
    ensures Window(t) == Window(t[..|t| - 1]) + [WindowOf(t[..|t| - 1], t[|t| - 1])]
  {
  }

  lemma SupervisedSnoc(w: seq<WindowRow>, x: WindowRow)
    ensures Supervised(w + [x]) == Supervised(w) + (if x.lag3.Some? then [x] else [])
  {
    assert (w + [x])[..|w + [x]| - 1] == w;
  }

  lemma CountSnoc(w: seq<WindowRow>, x: WindowRow, id: string)
    ensures CountId(w + [x], id) == CountId(w, id) + (if x.annual.id == id then 1 else 0)
  {
    assert (w + [x])[..|w + [x]| - 1] == w;
  }

  lemma SupervisedCountStep(t: seq<AnnualRow>, id: string)
    requires t != []
    ensures var p, a := t[..|t| - 1], t[|t| - 1];
      CountId(Supervised(Window(t)), id)
        == CountId(Supervised(Window(p)), id) + (if a.id == id && WindowOf(p, a).lag3.Some? then 1 else 0)
  {
    var p, a := t[..|t| - 1], t[|t| - 1];
    var x := WindowOf(p, a);
    WindowSnoc(t);
    SupervisedSnoc(Window(p), x);
    var s := Supervised(Window(p));
    if x.lag3.Some? {
      CountSnoc(s, x, id);
    } else {
      assert s + [] == s;
    }
  }

  lemma {:induction false} SupervisedCount(t: seq<AnnualRow>, id: string)
    requires forall a :: a in t ==> a.seasonTotal.Some?
    ensures CountId(Supervised(Window(t)), id) == if |History(t, id)| >= 3 then |History(t, id)| - 3 else 0
  {
    if t != [] {
      var p, a := t[..|t| - 1], t[|t| - 1];
      assert forall b :: b in p ==> b in t;
      SupervisedCount(p, id);
      SupervisedCountStep(t, id);
      if a.id == id {
        HistoryPresent(p, id);
      }
    }
  }

  /**
   * Each id loses exactly its first three annual rows to the lag-3 filter
   * (all of them when it has three or fewer), provided every seasonal total
   * is present.
   */
  lemma SupervisedDropsFirstThree(rows: seq<LongRow>, id: string)
    requires forall r :: r in rows ==> r.seasonTotal.Some?
    ensures var t := AnnualTable(rows);
      CountId(SlidingWindowTable(rows), id) == if |History(t, id)| >= 3 then |History(t, id)| - 3 else 0
  {
    var t := AnnualTable(rows);
    AnnualRowsAreAggregates(rows);
    forall a | a in t ensures a.seasonTotal.Some? {
      var g := Group(rows, AnnualKeyOf(a));
      assert g[0] in g;
    }
    SupervisedCount(t, id);
  }
}

/**
 * The long table `master_long_dataset.csv` as the downstream scripts read it
 * back: one row per (player, tournament) entry. Ids are kept as text, the
 * season year as a number, the seasonal total and the points as pandas
 * reads them (a missing cell is `None`).
 */
module LongTable {
  import opened Wrappers
  import opened Text
  import opened Ordering

  datatype LongRow = LongRow(
    id: string, name: string, year: int, institution: string,
    seasonTotal: Option<real>, tournament: string, points: Option<string>)

  /** `pd.to_numeric(points_earned, errors='coerce').fillna(0)`. */
  function Points(r: LongRow): (p: real)
    ensures r.points.None? ==> p == 0.0
    ensures r.points.Some? && ParseDecimal(r.points.value).None? ==> p == 0.0
    ensures r.points.Some? && ParseDecimal(r.points.value).Some? ==> p == ParseDecimal(r.points.value).value
  {
    match r.points
    case None => 0.0
    case Some(t) => ParseDecimal(t).GetOr(0.0)
  }

  /** Points written as an integer's decimal text read back as that integer. */
  lemma PointsOfIntText(r: LongRow, i: int)
    requires r.points == Some(IntToString(i))
    ensures Points(r) == i as real
  {
    ParseDecimalIntToString(i);
  }

  // The boolean-mask filters of the model (`RowsOf`, `RowsOfYear` and
  // `WithId` here, `Ranking.Latest2024` and `Elo.RowsOfTournament`) are each
  // written out over their own condition rather than as one filter taking a
  // predicate: a function value in the recursion makes the order and count
  // lemmas below costly and unstable for the solver. Each states the same
  // membership ensures; all but `Elo.RowsOfTournament`, whose order the sort
  // after it discards, carry the same pair of order and count lemmas.

  /** The rows of one id, in table order: `df[df['ttfi_id'] == pid]`. */
  function RowsOf(rows: seq<LongRow>, id: string): (r: seq<LongRow>)
    ensures |r| <= |rows|
    ensures forall x :: x in r <==> x in rows && x.id == id
  {
    if rows == [] then []
    else RowsOf(rows[..|rows| - 1], id) + (if rows[|rows| - 1].id == id then [rows[|rows| - 1]] else [])
  }

  /** A boolean-mask filter keeps the kept rows in table order. */
  lemma {:induction false} RowsOfInOrder(rows: seq<LongRow>, id: string)
    ensures IsSubsequence(RowsOf(rows, id), rows)
  {
    if rows != [] {
      RowsOfInOrder(rows[..|rows| - 1], id);
      SubsequenceStep(RowsOf(rows, id), RowsOf(rows[..|rows| - 1], id), rows, rows[|rows| - 1].id == id);
    }
  }

  /** A boolean-mask filter keeps each kept row as often as the table holds it, and no other row. */
  lemma {:induction false} RowsOfCount(rows: seq<LongRow>, id: string, x: LongRow)
    ensures multiset(RowsOf(rows, id))[x] == if x.id == id then multiset(rows)[x] else 0
  {
    if rows != [] {
      var p, last := rows[..|rows| - 1], rows[|rows| - 1];
      RowsOfCount(p, id, x);
      var q := RowsOf(p, id);
      assert rows == p + [last];
      assert multiset(rows) == multiset(p) + multiset{last};
      if last.id == id {
        assert RowsOf(rows, id) == q + [last];
        assert multiset(q + [last]) == multiset(q) + multiset{last};
      } else {
        assert RowsOf(rows, id) == q;
      }
    }
  }

  /** The rows of one season year, in table order. */
  function RowsOfYear(rows: seq<LongRow>, year: int): (r: seq<LongRow>)
    ensures |r| <= |rows|
    ensures forall x :: x in r <==> x in rows && x.year == year
  {
    if rows == [] then []
    else RowsOfYear(rows[..|rows| - 1], year) + (if rows[|rows| - 1].year == year then [rows[|rows| - 1]] else [])
  }

  /** A boolean-mask filter keeps the kept rows in table order. */
  lemma {:induction false} RowsOfYearInOrder(rows: seq<LongRow>, year: int)
    ensures IsSubsequence(RowsOfYear(rows, year), rows)
  {
    if rows != [] {
      RowsOfYearInOrder(rows[..|rows| - 1], year);
      SubsequenceStep(RowsOfYear(rows, year), RowsOfYear(rows[..|rows| - 1], year), rows, rows[|rows| - 1].year == year);
    }
  }

  /** A boolean-mask filter keeps each kept row as often as the table holds it, and no other row. */
  lemma {:induction false} RowsOfYearCount(rows: seq<LongRow>, year: int, x: LongRow)
    ensures multiset(RowsOfYear(rows, year))[x] == if x.year == year then multiset(rows)[x] else 0
  {
    if rows != [] {
      var p, last := rows[..|rows| - 1], rows[|rows| - 1];
      RowsOfYearCount(p, year, x);
      var q := RowsOfYear(p, year);
      assert rows == p + [last];
      assert multiset(rows) == multiset(p) + multiset{last};
      if last.year == year {
        assert RowsOfYear(rows, year) == q + [last];
        assert multiset(q + [last]) == multiset(q) + multiset{last};
      } else {
        assert RowsOfYear(rows, year) == q;
      }
    }
  }

  /** A season has rows exactly when some row of the table carries it. */
  lemma YearPresent(rows: seq<LongRow>, year: int)
    ensures |RowsOfYear(rows, year)| > 0 <==> exists r :: r in rows && r.year == year
  {
    var g := RowsOfYear(rows, year);
    if |g| > 0 {
      assert g[0] in g;
    }
  }

  /** Two tables with the same season column have the same seasons. */
  lemma SameYearsPresent(a: seq<LongRow>, b: seq<LongRow>, year: int)
    requires |a| == |b| && forall i :: 0 <= i < |a| ==> a[i].year == b[i].year
    ensures (exists r :: r in a && r.year == year) <==> (exists r :: r in b && r.year == year)
  {
    if exists r :: r in a && r.year == year {
      var r :| r in a && r.year == year;
      var i :| 0 <= i < |a| && a[i] == r;
      assert b[i] in b;
    }
    if exists r :: r in b && r.year == year {
      var r :| r in b && r.year == year;
      var i :| 0 <= i < |b| && b[i] == r;
      assert a[i] in a;
    }
  }

  /** The id column, in table order. */
  function Ids(rows: seq<LongRow>): (r: seq<string>)
    ensures |r| == |rows| && forall i :: 0 <= i < |rows| ==> r[i] == rows[i].id
    ensures forall x :: x in r <==> exists row :: row in rows && row.id == x
  {
    var r := seq(|rows|, i requires 0 <= i < |rows| => rows[i].id);
    assert forall row :: row in rows ==> row.id in r by {
      forall row | row in rows ensures row.id in r {
        var i :| 0 <= i < |rows| && rows[i] == row;
        assert r[i] == row.id;
      }
    }
    r
  }

  /** The season-year column, in table order. */
  function Years(rows: seq<LongRow>): (r: seq<int>)
    ensures |r| == |rows| && forall i :: 0 <= i < |rows| ==> r[i] == rows[i].year
    ensures forall y :: y in r <==> exists row :: row in rows && row.year == y
  {
    var r := seq(|rows|, i requires 0 <= i < |rows| => rows[i].year);
    assert forall row :: row in rows ==> row.year in r by {
      forall row | row in rows ensures row.year in r {
        var i :| 0 <= i < |rows| && rows[i] == row;
        assert r[i] == row.year;
      }
    }
    r
  }

  function MaxOpt(a: Option<real>, b: Option<real>): Option<real> {
    if a.None? then b else if b.None? then a else if a.value >= b.value then a else b
  }

  /** pandas `max` over a group: NaN cells are skipped, an all-NaN group gives NaN. */
  function MaxTotal(g: seq<LongRow>): (m: Option<real>)
    ensures m.None? <==> forall r :: r in g ==> r.seasonTotal.None?
    ensures m.Some? ==> exists r :: r in g && r.seasonTotal == m
    ensures forall r :: r in g && r.seasonTotal.Some? ==> m.Some? && r.seasonTotal.value <= m.value
  {
    if g == [] then None
    else
      var m := MaxTotal(g[..|g| - 1]);
      assert forall r :: r in g <==> r in g[..|g| - 1] || r == g[|g| - 1];
      MaxOpt(m, g[|g| - 1].seasonTotal)
  }

  /** The keys of `groupby('ttfi_id')`: the ids in ascending order, each of which has rows. */
  function GroupIds(rows: seq<LongRow>): (ids: seq<string>)
    ensures StrictlySorted(ids, StrLess)
    ensures forall id :: id in ids <==> exists r :: r in rows && r.id == id
    ensures forall id :: id in ids ==> RowsOf(rows, id) != []
  {
    StrLessIsStrictTotal();
    var ids := SortedKeys(Ids(rows), StrLess);
    forall id | id in ids ensures RowsOf(rows, id) != [] {
      var r :| r in rows && r.id == id;
      assert r in RowsOf(rows, id);
    }
    ids
  }

  /** The rows whose id is present: a `groupby('ttfi_id')` leaves out the rows with a missing key. */
  function WithId(rows: seq<LongRow>): (r: seq<LongRow>)
    ensures forall x :: x in r <==> x in rows && x.id != ""
  {
    if rows == [] then []
    else WithId(rows[..|rows| - 1]) + (if rows[|rows| - 1].id != "" then [rows[|rows| - 1]] else [])
  }

  /** A boolean-mask filter keeps the kept rows in table order. */
  lemma {:induction false} WithIdInOrder(rows: seq<LongRow>)
    ensures IsSubsequence(WithId(rows), rows)
  {
    if rows != [] {
      WithIdInOrder(rows[..|rows| - 1]);
      SubsequenceStep(WithId(rows), WithId(rows[..|rows| - 1]), rows, rows[|rows| - 1].id != "");
    }
  }

  /** A boolean-mask filter keeps each kept row as often as the table holds it, and no other row. */
  lemma {:induction false} WithIdCount(rows: seq<LongRow>, x: LongRow)
    ensures multiset(WithId(rows))[x] == if x.id != "" then multiset(rows)[x] else 0
  {
    if rows != [] {
      var p, last := rows[..|rows| - 1], rows[|rows| - 1];
      WithIdCount(p, x);
      var q := WithId(p);
      assert rows == p + [last];
      assert multiset(rows) == multiset(p) + multiset{last};
      if last.id != "" {
        assert WithId(rows) == q + [last];
        assert multiset(q + [last]) == multiset(q) + multiset{last};
      } else {
        assert WithId(rows) == q;
      }
    }
  }

  /** Leaving out the rows without an id does not change the rows of a present id. */
  lemma {:induction false} RowsOfWithId(rows: seq<LongRow>, id: string)
    requires id != ""
    ensures RowsOf(WithId(rows), id) == RowsOf(rows, id)
  {
    if rows != [] {
      var p, last := rows[..|rows| - 1], rows[|rows| - 1];
      RowsOfWithId(p, id);
      assert RowsOf(rows, id) == RowsOf(p, id) + (if last.id == id then [last] else []);
      if last.id != "" {
        var w := WithId(p) + [last];
        assert WithId(rows) == w;
        assert w[..|w| - 1] == WithId(p) && w[|w| - 1] == last;
        assert RowsOf(w, id) == RowsOf(WithId(p), id) + (if last.id == id then [last] else []);
      } else {
        assert WithId(rows) == WithId(p);
      }
    }
  }

  /**
   * pandas `first` over a text column: the first value that is not missing,
   * or missing when all are. An empty cell of the long table is read back
   * as missing, and a missing result is written here as "".
   */
  function FirstPresent(xs: seq<string>): (v: string)
    ensures v == "" <==> forall i :: 0 <= i < |xs| ==> xs[i] == ""
  {
    if xs == [] then ""
    else if xs[0] != "" then xs[0]
    else
      assert forall i :: 1 <= i < |xs| ==> xs[i] == xs[1..][i - 1];
      FirstPresent(xs[1..])
  }

  /** A value that is found is at an index before which every value is missing. */
  lemma {:induction false} FirstPresentIsFirst(xs: seq<string>)
    requires FirstPresent(xs) != ""
    ensures exists i :: 0 <= i < |xs| && xs[i] == FirstPresent(xs) && forall j :: 0 <= j < i ==> xs[j] == ""
  {
    if xs[0] == "" {
      var t := xs[1..];
      FirstPresentIsFirst(t);
      var i :| 0 <= i < |t| && t[i] == FirstPresent(t) && forall j :: 0 <= j < i ==> t[j] == "";
      assert xs[i + 1] == t[i];
      forall j | 0 <= j < i + 1 ensures xs[j] == "" {
        if j > 0 {
          assert xs[j] == t[j - 1];
        }
      }
    } else {
      assert xs[0] == FirstPresent(xs);
    }
  }

  /** The name column, in table order. */
  function Names(rows: seq<LongRow>): (r: seq<string>)
    ensures |r| == |rows| && forall i :: 0 <= i < |rows| ==> r[i] == rows[i].name
  {
    seq(|rows|, i requires 0 <= i < |rows| => rows[i].name)
  }

  /** The institution column, in table order. */
  function Institutions(rows: seq<LongRow>): (r: seq<string>)
    ensures |r| == |rows| && forall i :: 0 <= i < |rows| ==> r[i] == rows[i].institution
  {
    seq(|rows|, i requires 0 <= i < |rows| => rows[i].institution)
  }
}

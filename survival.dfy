/**
 * The career-duration table fed to the Kaplan-Meier fit: one record per
 * player id with the first and last season the id appears in the long
 * table, the number of entries, the duration in seasons and the
 * censoring flag (a career is "observed" to end when the id is absent
 * from the latest season).
 */
module Survival {
  import opened Wrappers
  import opened Ordering
  import opened LongTable

  /** The latest season of the data; a career reaching it is still running. */
  const LatestSeason := 2024

  datatype Career = Career(
    id: string, startYear: int, endYear: int, yearsActive: nat,
    name: string, duration: int, observed: int)

  /** The group's `min` of the season year. */
  function MinYear(g: seq<LongRow>): (m: int)
    requires g != []
    ensures forall r :: r in g ==> m <= r.year
    ensures exists r :: r in g && r.year == m
  {
    if |g| == 1 then g[0].year
    else
      var p, last := g[..|g| - 1], g[|g| - 1];
      assert forall r :: r in g <==> r in p || r == last;
      var m := MinYear(p);
      if last.year < m then last.year else m
  }

  /** The group's `max` of the season year. */
  function MaxYear(g: seq<LongRow>): (m: int)
    requires g != []
    ensures forall r :: r in g ==> r.year <= m
    ensures exists r :: r in g && r.year == m
  {
    if |g| == 1 then g[0].year
    else
      var p, last := g[..|g| - 1], g[|g| - 1];
      assert forall r :: r in g <==> r in p || r == last;
      var m := MaxYear(p);
      if last.year > m then last.year else m
  }

  /** The career record of one id that has rows in the long table. */
  function CareerOf(rows: seq<LongRow>, id: string): (c: Career)
    requires RowsOf(rows, id) != []
    ensures c.id == id && c.startYear <= c.endYear
    ensures forall r :: r in rows && r.id == id ==> c.startYear <= r.year <= c.endYear
    ensures exists r :: r in rows && r.id == id && r.year == c.startYear
    ensures exists r :: r in rows && r.id == id && r.year == c.endYear
    ensures c.yearsActive == |RowsOf(rows, id)| >= 1
    ensures c.duration == c.endYear - c.startYear + 1 >= 1
    ensures c.observed == 0 || c.observed == 1
    ensures c.observed == 1 <==> forall r :: r in rows && r.id == id ==> r.year < LatestSeason
    ensures c.name == "" <==> forall r :: r in rows && r.id == id ==> r.name == ""
  {
    var g := RowsOf(rows, id);
    var n := FirstPresent(Names(g));
    assert n == "" <==> forall r :: r in g ==> r.name == "" by {
      if n == "" {
        forall r | r in g ensures r.name == "" {
          var i :| 0 <= i < |g| && g[i] == r;
        }
      }
    }
    CareerFrom(id, g)
  }

  /** The aggregation of one group's rows, as `CareerOf` describes it. */
  function CareerFrom(id: string, g: seq<LongRow>): Career
    requires g != []
  {
    var s, e := MinYear(g), MaxYear(g);
    Career(id, s, e, |g|, FirstPresent(Names(g)), e - s + 1, if e < LatestSeason then 1 else 0)
  }

  /**
   * The career's name is the group's `first` player name: the first name
   * of the id's rows that is not missing.
   */
  lemma CareerName(rows: seq<LongRow>, id: string)
    requires RowsOf(rows, id) != []
    ensures var g, n := RowsOf(rows, id), CareerOf(rows, id).name;
      n != "" ==> exists i :: 0 <= i < |g| && g[i].name == n && forall j :: 0 <= j < i ==> g[j].name == ""
  {
    var g := RowsOf(rows, id);
    FirstNameOfGroup(id, g);
    assert CareerOf(rows, id) == CareerFrom(id, g);
  }

  lemma FirstNameOfGroup(id: string, g: seq<LongRow>)
    requires g != []
    ensures var n := CareerFrom(id, g).name;
      n != "" ==> exists i :: 0 <= i < |g| && g[i].name == n && forall j :: 0 <= j < i ==> g[j].name == ""
  {
    var xs, n := Names(g), CareerFrom(id, g).name;
    if n != "" {
      FirstPresentIsFirst(xs);
      var i :| 0 <= i < |xs| && xs[i] == n && forall j :: 0 <= j < i ==> xs[j] == "";
      assert g[i].name == n;
    }
  }

  /**
   * One career per present id, in the ascending id order of `groupby`,
   * which leaves out the rows whose id is missing.
   */
  function Careers(rows: seq<LongRow>): (cs: seq<Career>)
  {
    var w := WithId(rows);
    var ids := GroupIds(w);
    seq(|ids|, i requires 0 <= i < |ids| => CareerOf(w, ids[i]))
  }

  /**
   * Every present id of the long table has exactly one career record, the
   * records are in strictly ascending id order, and each is the career of
   * all of that id's rows; a missing id has no record.
   */
  lemma CareersSpec(rows: seq<LongRow>)
    ensures var cs := Careers(rows);
      && (forall i, j :: 0 <= i < j < |cs| ==> StrLess(cs[i].id, cs[j].id))
      && (forall r :: r in rows && r.id != "" ==> exists i :: 0 <= i < |cs| && cs[i].id == r.id)
      && (forall c :: c in cs ==> c.id != "" && RowsOf(rows, c.id) != [] && c == CareerOf(rows, c.id))
  {
    var w := WithId(rows);
    var ids := GroupIds(w);
    var cs := Careers(rows);
    CareersAt(rows, ids, cs);
    CareersAscending(w, ids, cs);
    CareersCoverRows(w, ids, cs);
    CareersAreCareerOf(w, ids, cs);
    CareersOfPresentIds(rows, cs);
  }

  /** A career of the rows with an id is the career of all the rows of that id. */
  lemma CareersOfPresentIds(rows: seq<LongRow>, cs: seq<Career>)
    requires forall c :: c in cs ==> RowsOf(WithId(rows), c.id) != [] && c == CareerOf(WithId(rows), c.id)
    ensures forall c :: c in cs ==> c.id != "" && RowsOf(rows, c.id) != [] && c == CareerOf(rows, c.id)
  {
    forall c | c in cs ensures c.id != "" && RowsOf(rows, c.id) != [] && c == CareerOf(rows, c.id) {
      var g := RowsOf(WithId(rows), c.id);
      assert g[0] in g;
      CareerOfWithId(rows, c.id);
    }
  }

  lemma CareerOfWithId(rows: seq<LongRow>, id: string)
    requires id != "" && RowsOf(WithId(rows), id) != []
    ensures RowsOf(rows, id) != [] && CareerOf(WithId(rows), id) == CareerOf(rows, id)
  {
    RowsOfWithId(rows, id);
    assert CareerOf(WithId(rows), id) == CareerFrom(id, RowsOf(WithId(rows), id));
  }

  lemma CareersAt(rows: seq<LongRow>, ids: seq<string>, cs: seq<Career>)
    requires ids == GroupIds(WithId(rows)) && cs == Careers(rows)
    ensures |cs| == |ids| && forall i :: 0 <= i < |cs| ==> cs[i] == CareerOf(WithId(rows), ids[i])
  {
  }

  lemma CareersAscending(rows: seq<LongRow>, ids: seq<string>, cs: seq<Career>)
    requires ids == GroupIds(rows) && |cs| == |ids|
    requires forall i :: 0 <= i < |cs| ==> cs[i] == CareerOf(rows, ids[i])
    ensures forall i, j :: 0 <= i < j < |cs| ==> StrLess(cs[i].id, cs[j].id)
  {
    StrLessIsStrictTotal();
    assert ids == SortedKeys(Ids(rows), StrLess);
    forall i, j | 0 <= i < j < |cs| ensures StrLess(cs[i].id, cs[j].id) {
      assert StrLess(ids[i], ids[j]);
      assert cs[i].id == ids[i] && cs[j].id == ids[j];
    }
  }

  lemma CareersCoverRows(rows: seq<LongRow>, ids: seq<string>, cs: seq<Career>)
    requires ids == GroupIds(rows) && |cs| == |ids|
    requires forall i :: 0 <= i < |cs| ==> cs[i] == CareerOf(rows, ids[i])
    ensures forall r :: r in rows ==> exists i :: 0 <= i < |cs| && cs[i].id == r.id
  {
    StrLessIsStrictTotal();
    assert ids == SortedKeys(Ids(rows), StrLess);
    forall r | r in rows ensures exists i :: 0 <= i < |cs| && cs[i].id == r.id {
      assert r.id in Ids(rows);
      var i :| 0 <= i < |ids| && ids[i] == r.id;
      var c := CareerOf(rows, ids[i]);
      assert cs[i] == c && c.id == r.id;
    }
  }

  lemma CareersAreCareerOf(rows: seq<LongRow>, ids: seq<string>, cs: seq<Career>)
    requires ids == GroupIds(rows) && |cs| == |ids|
    requires forall i :: 0 <= i < |cs| ==> cs[i] == CareerOf(rows, ids[i])
    ensures forall c :: c in cs ==> RowsOf(rows, c.id) != [] && c == CareerOf(rows, c.id)
  {
    forall c | c in cs ensures RowsOf(rows, c.id) != [] && c == CareerOf(rows, c.id) {
      var i :| 0 <= i < |cs| && cs[i] == c;
      assert ids[i] in ids;
    }
  }

  /** A strictly increasing run of integers within `[lo, hi]` has at most `hi - lo + 1` members. */
  lemma {:induction false} IncreasingWithin(s: seq<int>, lo: int, hi: int)
    requires StrictlySorted(s, IntLess)
    requires lo <= hi + 1 && forall x :: x in s ==> lo <= x <= hi
    ensures |s| <= hi - lo + 1
  {
    if s != [] {
      var t := s[1..];
      assert forall x :: x in t ==> s[0] < x by {
        forall x | x in t ensures s[0] < x {
          var k :| 0 <= k < |t| && t[k] == x;
          assert IntLess(s[0], s[k + 1]);
        }
      }
      assert s[0] in s;
      assert forall x :: x in t ==> x in s;
      assert StrictlySorted(t, IntLess) by {
        forall i, j | 0 <= i < j < |t| ensures IntLess(t[i], t[j]) {
          assert IntLess(s[i + 1], s[j + 1]);
        }
      }
      IncreasingWithin(t, s[0] + 1, hi);
    }
  }

  /**
   * The distinct seasons of a career number at most its duration: a
   * career spans every season from its start to its end, played or not.
   */
  lemma SeasonsWithinDuration(rows: seq<LongRow>, id: string)
    requires RowsOf(rows, id) != []
    ensures |SortedKeys(Years(RowsOf(rows, id)), IntLess)| <= CareerOf(rows, id).duration
  {
    var g := RowsOf(rows, id);
    var c := CareerOf(rows, id);
    var ys := SortedKeys(Years(g), IntLess);
    forall y | y in ys ensures c.startYear <= y <= c.endYear {
      var r :| r in g && r.year == y;
    }
    IncreasingWithin(ys, c.startYear, c.endYear);
  }

  /**
   * `years_active` counts entries, not seasons: two tournaments in one
   * season give two years active within a one-season career.
   */
  lemma YearsActiveCanExceedDuration()
    ensures var a := LongRow("7", "A", 2023, "X", None, "Open", None);
      var b := LongRow("7", "A", 2023, "X", None, "Cup", None);
      var c := CareerOf([a, b], "7");
      c.yearsActive == 2 && c.duration == 1 && c.observed == 1
  {
    var a := LongRow("7", "A", 2023, "X", None, "Open", None);
    var b := LongRow("7", "A", 2023, "X", None, "Cup", None);
    assert [a, b][..1] == [a];
    assert RowsOf([a], "7") == [a] by {
      assert [a][..0] == [];
    }
    assert RowsOf([a, b], "7") == [a, b];
  }
}

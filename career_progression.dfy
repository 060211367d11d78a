/**
 * Career progression over the raw yearly ranking files: each season's file
 * is read with a second, smaller keyword mapper into (year, id, name,
 * points) records, and the player whose best points grew the most from
 * the first to the last season is selected.
 */
module CareerProgression {
  import opened Wrappers
  import opened Text
  import opened Ordering
  import HeaderMapping
  import ExtractFeatures

  type Cell = HeaderMapping.Cell
  type RawFile = HeaderMapping.RawFile

  /** The seasons whose files are read, in this order. */
  const Seasons: seq<int> := [2020, 2021, 2022, 2023, 2024]
  const StartSeason := 2020
  const EndSeason := 2024

  /** Python's `str(x)` on a cell: a missing cell prints as "nan". */
  function CellText(c: Cell): string {
    c.GetOr("nan")
  }

  /** `str(x).upper().strip()` on one header cell. */
  function HeaderText(c: Cell): string {
    Strip(Upper(CellText(c)))
  }

  function HeadersOf(cells: seq<Cell>): (hs: seq<string>)
    ensures |hs| == |cells|
  {
    seq(|cells|, i requires 0 <= i < |cells| => HeaderText(cells[i]))
  }

  // ---------------------------------------------------------------------
  // Column mapping
  // ---------------------------------------------------------------------

  datatype Field = IdField | NameField | PointsField | NoField

  /** The keyword rules, tried in order: id, then name, then points that are not "best" points. */
  function FieldOf(h: string): Field {
    if Contains(h, "TTFI ID") then IdField
    else if Contains(h, "NAME") then NameField
    else if Contains(h, "POINTS") && !Contains(h, "BEST") then PointsField
    else NoField
  }

  datatype ProgressColumns = ProgressColumns(id: Option<nat>, name: Option<nat>, points: Option<nat>)

  /** The column `col_map` ends up holding for `f`: assignments overwrite, so the last match wins. */
  function LastField(hs: seq<string>, f: Field): (r: Option<nat>)
    ensures r.None? <==> forall j :: 0 <= j < |hs| ==> FieldOf(hs[j]) != f
    ensures r.Some? ==> r.value < |hs| && FieldOf(hs[r.value]) == f
    ensures r.Some? ==> forall j :: r.value < j < |hs| ==> FieldOf(hs[j]) != f
  {
    if hs == [] then None
    else if FieldOf(hs[|hs| - 1]) == f then Some(|hs| - 1)
    else LastField(hs[..|hs| - 1], f)
  }

  function ColumnsOf(hs: seq<string>): ProgressColumns {
    ProgressColumns(LastField(hs, IdField), LastField(hs, NameField), LastField(hs, PointsField))
  }

  /** The cell of `row` in column `i`; pandas pads short rows with missing cells. */
  function CellAt(row: seq<Cell>, i: nat): Cell {
    if i < |row| then row[i] else None
  }

  /** The three mapped columns are different columns of the header row. */
  lemma ColumnsDistinct(hs: seq<string>)
    ensures var cm := ColumnsOf(hs);
      && (cm.id.Some? ==> cm.id.value < |hs|)
      && (cm.name.Some? ==> cm.name.value < |hs|)
      && (cm.points.Some? ==> cm.points.value < |hs|)
      && (cm.id.Some? && cm.name.Some? ==> cm.id.value != cm.name.value)
      && (cm.id.Some? && cm.points.Some? ==> cm.id.value != cm.points.value)
      && (cm.name.Some? && cm.points.Some? ==> cm.name.value != cm.points.value)
  {
  }

  /** A header holding both "TTFI ID" and "NAME" is the id column, never the name column. */
  lemma IdBeforeName(h: string)
    requires Contains(h, "TTFI ID")
    ensures FieldOf(h) == IdField
  {
  }

  /** The `col_map` loop over the headers. */
  method MapProgressColumns(hs: seq<string>) returns (cm: ProgressColumns)
    ensures cm == ColumnsOf(hs)
  {
    cm := ProgressColumns(None, None, None);
    var i := 0;
    while i < |hs|
      invariant 0 <= i <= |hs|
      invariant cm == ColumnsOf(hs[..i])
    {
      assert hs[..i + 1][..i] == hs[..i];
      var f := FieldOf(hs[i]);
      if f == IdField {
        cm := cm.(id := Some(i));
      } else if f == NameField {
        cm := cm.(name := Some(i));
      } else if f == PointsField {
        cm := cm.(points := Some(i));
      }
      i := i + 1;
    }
    assert hs[..i] == hs;
  }

  // ---------------------------------------------------------------------
  // Row parsing
  // ---------------------------------------------------------------------

  datatype Record = Record(year: int, id: string, name: string, points: real)

  /** `float(pts) if pts and pts != 'nan' else 0.0`; `None` is the `ValueError`. */
  function ParsePoints(pts: string): (v: Option<real>)
    ensures pts == "" || pts == "nan" ==> v == Some(0.0)
  {
    if pts == "" || pts == "nan" then Some(0.0) else ParseDecimal(pts)
  }

  /** Points written as an integer's decimal text read back as that integer. */
  lemma ParsePointsIntToString(i: int)
    ensures ParsePoints(IntToString(i)) == Some(i as real)
  {
    ParseDecimalIntToString(i);
    var n: nat := if i < 0 then -i else i;
    assert IsDigit(NatToString(n)[0]);
  }

  /** The points text of a cell: commas removed, then stripped. */
  function PointsText(c: Cell): string {
    Strip(DeleteAll(CellText(c), ","))
  }

  /** The id text of a cell: stripped, with every ".0" removed. */
  function IdText(c: Cell): string {
    ExtractFeatures.NormalizeId(CellText(c))
  }

  /** The name text of a cell: stripped. */
  function NameText(c: Cell): string {
    Strip(CellText(c))
  }

  /** The record of one row's three texts, or `None` when the row is skipped. */
  function ParseFields(year: int, pid: string, name: string, pts: string): (r: Option<Record>)
    ensures r.Some? ==> r.value.year == year && r.value.id != "" && r.value.name != "nan"
  {
    match ParsePoints(pts)
    case None => None
    case Some(v) => if pid != "" && name != "nan" then Some(Record(year, pid, name, v)) else None
  }

  /**
   * One data row. `None` when the row is skipped: a column the mapper did
   * not find (the `KeyError`), points that do not parse (the `ValueError`),
   * an empty id or a missing name.
   */
  function ParseRow(cm: ProgressColumns, year: int, row: seq<Cell>): (r: Option<Record>)
    ensures r.Some? ==> cm.id.Some? && cm.name.Some? && cm.points.Some?
    ensures r.Some? ==> r.value.year == year && r.value.id != "" && r.value.name != "nan"
    ensures cm.id.Some? && cm.name.Some? && cm.points.Some? ==>
      var pid, name := IdText(CellAt(row, cm.id.value)), NameText(CellAt(row, cm.name.value));
      var pts := ParsePoints(PointsText(CellAt(row, cm.points.value)));
      && (r.Some? <==> pid != "" && name != "nan" && pts.Some?)
      && (r.Some? ==> r.value.id == pid && r.value.name == name && r.value.points == pts.value)
  {
    if cm.id.None? || cm.name.None? || cm.points.None? then None
    else
      ParseFields(year, IdText(CellAt(row, cm.id.value)), NameText(CellAt(row, cm.name.value)),
                  PointsText(CellAt(row, cm.points.value)))
  }

  /** A missing or blank points cell scores zero, and the row is still kept when its id and name are. */
  lemma BlankPointsScoreZero(cm: ProgressColumns, year: int, row: seq<Cell>)
    requires cm.id.Some? && cm.name.Some? && cm.points.Some?
    requires CellAt(row, cm.points.value).None? || PointsText(CellAt(row, cm.points.value)) == ""
    ensures var pid, name := IdText(CellAt(row, cm.id.value)), NameText(CellAt(row, cm.name.value));
      ParseRow(cm, year, row) == if pid != "" && name != "nan" then Some(Record(year, pid, name, 0.0)) else None
  {
    if CellAt(row, cm.points.value).None? {
      AbsentFirstChar("nan", ",");
      StripUnchanged("nan");
    }
  }

  /** Thousands separators are dropped before parsing: "1,250" scores 1250. */
  lemma ThousandsSeparator()
    ensures ParsePoints(PointsText(Some("1,250"))) == Some(1250.0)
  {
    DropComma();
    StripUnchanged("1250");
    ReadTwelveFifty();
  }

  lemma DropComma()
    ensures DeleteAll("1,250", ",") == "1250"
  {
    assert DeleteAll("250", ",") == "250" by {
      AbsentFirstChar("250", ",");
    }
    assert "1,250"[1..] == ",250";
    assert ",250"[1..] == "250";
  }

  lemma ReadTwelveFifty()
    ensures ParseDecimal("1250") == Some(1250.0)
  {
    ParseDecimalIntToString(1250);
    assert IntToString(1250) == "1250";
  }

  /**
   * A missing id cell prints as "nan", which is not empty, so the row is kept
   * under the id "nan".
   */
  lemma MissingIdKept(year: int)
    ensures ParseRow(ProgressColumns(Some(0), Some(1), Some(2)), year, [None, Some("Ann"), Some("10")])
      == Some(Record(year, "nan", "Ann", 10.0))
  {
    MissingIdText();
    StripUnchanged("Ann");
    TenPoints();
  }

  lemma MissingIdText()
    ensures IdText(None) == "nan"
  {
    AbsentFirstChar("nan", ".0");
    StripUnchanged("nan");
  }

  lemma TenPoints()
    ensures ParsePoints(PointsText(Some("10"))) == Some(10.0)
  {
    AbsentFirstChar("10", ",");
    StripUnchanged("10");
    ParseDecimalIntToString(10);
    assert IntToString(10) == "10";
  }

  /** The record of a parsed row, if it was kept. */
  function Kept(r: Option<Record>): seq<Record> {
    if r.Some? then [r.value] else []
  }

  /** The records `parse` keeps from `rows`, in row order. */
  function Collect(parse: seq<Cell> -> Option<Record>, rows: seq<seq<Cell>>): seq<Record> {
    if rows == [] then []
    else Collect(parse, rows[..|rows| - 1]) + Kept(parse(rows[|rows| - 1]))
  }

  lemma CollectSnoc(parse: seq<Cell> -> Option<Record>, rows: seq<seq<Cell>>, i: nat)
    requires i < |rows|
    ensures Collect(parse, rows[..i + 1]) == Collect(parse, rows[..i]) + Kept(parse(rows[i]))
  {
    assert rows[..i + 1][..i] == rows[..i];
  }

  /** Some row parses to `rec`. */
  predicate ParsesTo(parse: seq<Cell> -> Option<Record>, rows: seq<seq<Cell>>, rec: Record) {
    exists i :: 0 <= i < |rows| && parse(rows[i]) == Some(rec)
  }

  lemma ParsesToSnoc(parse: seq<Cell> -> Option<Record>, rows: seq<seq<Cell>>, rec: Record)
    requires rows != []
    ensures ParsesTo(parse, rows, rec) <==>
      ParsesTo(parse, rows[..|rows| - 1], rec) || parse(rows[|rows| - 1]) == Some(rec)
  {
    var p, n := rows[..|rows| - 1], |rows| - 1;
    if ParsesTo(parse, p, rec) {
      var i :| 0 <= i < |p| && parse(p[i]) == Some(rec);
      assert rows[i] == p[i];
    }
    if ParsesTo(parse, rows, rec) {
      var i :| 0 <= i < |rows| && parse(rows[i]) == Some(rec);
      if i < n {
        assert p[i] == rows[i];
      }
    }
  }

  /** A record is collected exactly when some row parses to it. */
  lemma {:induction false} CollectMembers(parse: seq<Cell> -> Option<Record>, rows: seq<seq<Cell>>)
    ensures forall rec :: rec in Collect(parse, rows) <==> ParsesTo(parse, rows, rec)
  {
    if rows != [] {
      CollectMembers(parse, rows[..|rows| - 1]);
      forall rec ensures rec in Collect(parse, rows) <==> ParsesTo(parse, rows, rec) {
        ParsesToSnoc(parse, rows, rec);
      }
    }
  }

  /** `ParseRow` as a function of the row alone. */
  function RowParser(cm: ProgressColumns, year: int): seq<Cell> -> Option<Record> {
    row => ParseRow(cm, year, row)
  }

  /** The records of a file's data rows, in row order. */
  function RowRecords(cm: ProgressColumns, year: int, rows: seq<seq<Cell>>): seq<Record> {
    Collect(RowParser(cm, year), rows)
  }

  /**
   * A record comes from the file exactly when some data row parses to it,
   * and every record passed the row filters.
   */
  lemma RowRecordsSpec(cm: ProgressColumns, year: int, rows: seq<seq<Cell>>)
    ensures forall rec :: rec in RowRecords(cm, year, rows) <==>
      exists i :: 0 <= i < |rows| && ParseRow(cm, year, rows[i]) == Some(rec)
    ensures forall rec :: rec in RowRecords(cm, year, rows) ==> rec.year == year && rec.id != "" && rec.name != "nan"
  {
    CollectMembers(RowParser(cm, year), rows);
  }

  /** A parser that keeps no row collects nothing. */
  lemma {:induction false} CollectNone(parse: seq<Cell> -> Option<Record>, rows: seq<seq<Cell>>)
    requires forall row :: parse(row).None?
    ensures Collect(parse, rows) == []
  {
    if rows != [] {
      CollectNone(parse, rows[..|rows| - 1]);
    }
  }

  /** Without all three columns, every row fails and the file adds nothing. */
  lemma MissingColumnSkipsRows(cm: ProgressColumns, year: int, rows: seq<seq<Cell>>)
    requires cm.id.None? || cm.name.None? || cm.points.None?
    ensures RowRecords(cm, year, rows) == []
  {
    CollectNone(RowParser(cm, year), rows);
  }

  // ---------------------------------------------------------------------
  // Files and seasons
  // ---------------------------------------------------------------------

  /** The run stops when a present file has no header row (`iloc[2]` out of bounds). */
  datatype ProgressError = MissingHeaderRow(year: int) | NoConsistentPlayer

  /** The records of one season's file; headers are on the third row, data from the fourth. */
  function FileRecords(f: RawFile, year: int): (r: Result<seq<Record>, ProgressError>)
    ensures r.Err? <==> |f.rows| < 3
  {
    if |f.rows| < 3 then Err(MissingHeaderRow(year))
    else Ok(RowRecords(ColumnsOf(HeadersOf(f.rows[2])), year, f.rows[3..]))
  }

  /** `extract_yearly_totals` over `years`: a season without a file is skipped. */
  function YearlyTotals(files: map<int, RawFile>, years: seq<int>): Result<seq<Record>, ProgressError>
  {
    if years == [] then Ok([])
    else
      var y := years[|years| - 1];
      match YearlyTotals(files, years[..|years| - 1])
      case Err(e) => Err(e)
      case Ok(acc) =>
        if y !in files then Ok(acc)
        else
          match FileRecords(files[y], y)
          case Err(e) => Err(e)
          case Ok(rs) => Ok(acc + rs)
  }

  /** The run fails exactly when one of the seasons has a file too short to hold the header row. */
  lemma {:induction false} YearlyTotalsErr(files: map<int, RawFile>, years: seq<int>)
    ensures YearlyTotals(files, years).Err? <==> exists y :: y in years && y in files && |files[y].rows| < 3
  {
    if years != [] {
      var p, y := years[..|years| - 1], years[|years| - 1];
      YearlyTotalsErr(files, p);
      assert forall x :: x in years <==> x in p || x == y;
    }
  }

  /**
   * Every record comes from a season that has a file, and passes the row
   * filters; the records are in season order when the seasons are.
   */
  lemma {:induction false} YearlyTotalsRecords(files: map<int, RawFile>, years: seq<int>)
    requires StrictlySorted(years, IntLess)
    ensures YearlyTotals(files, years).Ok? ==> var rs := YearlyTotals(files, years).value;
      && (forall rec :: rec in rs ==> rec.year in years && rec.year in files && rec.id != "" && rec.name != "nan")
      && (forall i, j :: 0 <= i < j < |rs| ==> rs[i].year <= rs[j].year)
  {
    if years != [] && YearlyTotals(files, years).Ok? {
      var p, y := years[..|years| - 1], years[|years| - 1];
      LastIsLargest(years, p, y);
      YearlyTotalsRecords(files, p);
      var acc := YearlyTotals(files, p).value;
      if y in files {
        FileRecordsFiltered(files[y], y);
        RecordsAppend(acc, FileRecords(files[y], y).value, p, y);
      }
    }
  }

  /**
   * No record is lost: when the run succeeds, every record of every
   * season's file is among the results.
   */
  lemma {:induction false} YearlyTotalsComplete(files: map<int, RawFile>, years: seq<int>)
    ensures YearlyTotals(files, years).Ok? ==> forall y :: y in years && y in files ==>
      FileRecords(files[y], y).Ok? && forall rec :: rec in FileRecords(files[y], y).value ==> rec in YearlyTotals(files, years).value
  {
    if years != [] && YearlyTotals(files, years).Ok? {
      var p, y := years[..|years| - 1], years[|years| - 1];
      YearlyTotalsComplete(files, p);
      YearlyTotalsErr(files, years);
      var acc := YearlyTotals(files, p).value;
      var all := YearlyTotals(files, years).value;
      assert forall rec :: rec in acc ==> rec in all;
      assert forall x :: x in years <==> x in p || x == y;
    }
  }

  /** The last of strictly increasing seasons is above all the others, which stay strictly increasing. */
  lemma LastIsLargest(years: seq<int>, p: seq<int>, y: int)
    requires years != [] && StrictlySorted(years, IntLess)
    requires p == years[..|years| - 1] && y == years[|years| - 1]
    ensures StrictlySorted(p, IntLess)
    ensures forall x :: x in p ==> x < y
  {
    forall x | x in p ensures x < y {
      var k :| 0 <= k < |p| && p[k] == x;
      assert IntLess(years[k], years[|years| - 1]);
    }
  }

  /** Every record of a file carries the file's season and passed the row filters. */
  lemma FileRecordsFiltered(f: RawFile, y: int)
    ensures FileRecords(f, y).Ok? ==>
      forall rec :: rec in FileRecords(f, y).value ==> rec.year == y && rec.id != "" && rec.name != "nan"
  {
    if |f.rows| >= 3 {
      RowRecordsSpec(ColumnsOf(HeadersOf(f.rows[2])), y, f.rows[3..]);
    }
  }

  /** Appending a season's records, all of that later season, keeps the records in season order. */
  lemma RecordsAppend(acc: seq<Record>, rs: seq<Record>, p: seq<int>, y: int)
    requires forall rec :: rec in acc ==> rec.year in p
    requires forall x :: x in p ==> x < y
    requires forall rec :: rec in rs ==> rec.year == y
    requires forall i, j :: 0 <= i < j < |acc| ==> acc[i].year <= acc[j].year
    ensures forall i, j :: 0 <= i < j < |acc + rs| ==> (acc + rs)[i].year <= (acc + rs)[j].year
  {
    var all := acc + rs;
    forall i, j | 0 <= i < j < |all| ensures all[i].year <= all[j].year {
      if j < |acc| {
        assert all[i] == acc[i] && all[j] == acc[j];
      } else if i < |acc| {
        assert all[i] in acc && all[j] in rs;
      } else {
        assert all[i] in rs && all[j] in rs;
      }
    }
  }

  /** Once a prefix of the seasons has failed, the later seasons do not change the error. */
  lemma {:induction false} ErrSticks(files: map<int, RawFile>, years: seq<int>, n: nat)
    requires n <= |years| && YearlyTotals(files, years[..n]).Err?
    ensures YearlyTotals(files, years) == YearlyTotals(files, years[..n])
    decreases |years|
  {
    if n < |years| {
      var p := years[..|years| - 1];
      assert p[..n] == years[..n];
      ErrSticks(files, p, n);
    } else {
      assert years[..n] == years;
    }
  }

  /** The rows loop of one file, appending each kept row's record. */
  method ExtractRows(cm: ProgressColumns, year: int, data: seq<seq<Cell>>, acc: seq<Record>) returns (out: seq<Record>)
    ensures out == acc + RowRecords(cm, year, data)
  {
    out := acc;
    var i := 0;
    while i < |data|
      invariant 0 <= i <= |data|
      invariant out == acc + RowRecords(cm, year, data[..i])
    {
      CollectSnoc(RowParser(cm, year), data, i);
      out := out + Kept(ParseRow(cm, year, data[i]));
      i := i + 1;
    }
    assert data[..i] == data;
  }

  /** One file: its headers, their columns, then its data rows. */
  method ExtractFileRows(f: RawFile, year: int, acc: seq<Record>) returns (out: seq<Record>)
    requires |f.rows| >= 3
    ensures Ok(out) == Then(acc, FileRecords(f, year))
  {
    var cm := MapProgressColumns(HeadersOf(f.rows[2]));
    out := ExtractRows(cm, year, f.rows[3..], acc);
  }

  /** `acc` followed by the records of `r`, or the error of `r`. */
  function Then(acc: seq<Record>, r: Result<seq<Record>, ProgressError>): Result<seq<Record>, ProgressError> {
    match r
    case Ok(rs) => Ok(acc + rs)
    case Err(e) => Err(e)
  }

  /** `extract_yearly_totals`: the seasons loop over the files that exist. */
  method ExtractYearlyTotals(files: map<int, RawFile>) returns (r: Result<seq<Record>, ProgressError>)
    ensures r == YearlyTotals(files, Seasons)
  {
    var data: seq<Record> := [];
    var k := 0;
    while k < |Seasons|
      invariant 0 <= k <= |Seasons|
      invariant YearlyTotals(files, Seasons[..k]) == Ok(data)
    {
      var year := Seasons[k];
      assert Seasons[..k + 1][..k] == Seasons[..k];
      if year in files {
        var f := files[year];
        if |f.rows| < 3 {
          ErrSticks(files, Seasons, k + 1);
          return Err(MissingHeaderRow(year));
        }
        data := ExtractFileRows(f, year, data);
      }
      k := k + 1;
    }
    assert Seasons[..k] == Seasons;
    r := Ok(data);
  }

  // ---------------------------------------------------------------------
  // Growth from the first to the last season
  // ---------------------------------------------------------------------

  /** Some record of `id` belongs to season `y`. */
  predicate InSeason(data: seq<Record>, id: string, y: int) {
    exists rec :: rec in data && rec.id == id && rec.year == y
  }

  /** An id present in both the first and the last season. */
  predicate Consistent(data: seq<Record>, id: string) {
    InSeason(data, id, StartSeason) && InSeason(data, id, EndSeason)
  }

  /** The ids of one season's records: `set(df[df['Year'] == y]['ID'])`, as a sequence. */
  function SeasonIds(data: seq<Record>, y: int): (ids: seq<string>)
    ensures forall id :: id in ids <==> InSeason(data, id, y)
  {
    if data == [] then []
    else
      var p, last := data[..|data| - 1], data[|data| - 1];
      assert forall rec :: rec in data <==> rec in p || rec == last;
      SeasonIds(p, y) + (if last.year == y then [last.id] else [])
  }

  /** The members of `a` that are also in `b`. */
  function Common(a: seq<string>, b: seq<string>): (c: seq<string>)
    ensures forall x :: x in c <==> x in a && x in b
  {
    if a == [] then []
    else
      var p, last := a[..|a| - 1], a[|a| - 1];
      assert forall x :: x in a <==> x in p || x == last;
      Common(p, b) + (if last in b then [last] else [])
  }

  /**
   * The ids present in both the first and the last season, each once; they
   * are listed in ascending order where Python iterates over a set.
   */
  function ConsistentIds(data: seq<Record>): (ids: seq<string>)
    ensures forall id :: id in ids ==> Consistent(data, id)
  {
    StrLessIsStrictTotal();
    SortedKeys(Common(SeasonIds(data, StartSeason), SeasonIds(data, EndSeason)), StrLess)
  }

  /** Exactly the ids present in both seasons are listed, in strictly ascending order. */
  lemma ConsistentIdsSpec(data: seq<Record>)
    ensures StrictlySorted(ConsistentIds(data), StrLess)
    ensures forall id :: id in ConsistentIds(data) <==> Consistent(data, id)
  {
    StrLessIsStrictTotal();
  }

  /** The points of `id`'s records in season `y`, in record order. */
  function SeasonPoints(data: seq<Record>, id: string, y: int): (ps: seq<real>)
    ensures ps != [] <==> InSeason(data, id, y)
    ensures forall v :: v in ps <==> exists rec :: rec in data && rec.id == id && rec.year == y && rec.points == v
  {
    if data == [] then []
    else
      var p, last := data[..|data| - 1], data[|data| - 1];
      assert forall rec :: rec in data <==> rec in p || rec == last;
      var ps := SeasonPoints(p, id, y) + (if last.id == id && last.year == y then [last.points] else []);
      assert ps != [] ==> ps[0] in ps;
      ps
  }

  /** pandas `max` of a non-empty column. */
  function MaxOf(xs: seq<real>): (m: real)
    requires xs != []
    ensures m in xs && forall x :: x in xs ==> x <= m
  {
    if |xs| == 1 then xs[0]
    else
      var p, last := xs[..|xs| - 1], xs[|xs| - 1];
      assert forall x :: x in xs <==> x in p || x == last;
      var m := MaxOf(p);
      if last > m then last else m
  }

  /** The name of `id`'s first record: `df[df['ID'] == pid]['Name'].iloc[0]`. */
  function FirstNameOf(data: seq<Record>, id: string): (n: string)
    requires exists rec :: rec in data && rec.id == id
    ensures exists i ::
      && 0 <= i < |data| && data[i].id == id && data[i].name == n
      && (forall j :: 0 <= j < i ==> data[j].id != id)
  {
    if data[0].id == id then
      data[0].name
    else
      var t := data[1..];
      assert exists rec :: rec in t && rec.id == id by {
        var rec :| rec in data && rec.id == id;
        var k :| 0 <= k < |data| && data[k] == rec;
        assert t[k - 1] == rec;
      }
      var n := FirstNameOf(t, id);
      var i :| 0 <= i < |t| && t[i].id == id && t[i].name == n && forall j :: 0 <= j < i ==> t[j].id != id;
      assert data[i + 1] == t[i];
      assert forall j :: 0 <= j < i + 1 ==> data[j].id != id by {
        forall j | 0 <= j < i + 1 ensures data[j].id != id {
          if j > 0 {
            assert data[j] == t[j - 1];
          }
        }
      }
      n
  }

  datatype Growth = Growth(id: string, name: string, start: real, end: real, growth: real)

  /** One id's best points in the first and last seasons, and their difference. */
  function GrowthOf(data: seq<Record>, id: string): (g: Growth)
    requires Consistent(data, id)
    ensures g.id == id
  {
    var s := MaxOf(SeasonPoints(data, id, StartSeason));
    var e := MaxOf(SeasonPoints(data, id, EndSeason));
    Growth(id, FirstNameOf(data, id), s, e, e - s)
  }

  /** The points `max` of one id's records in a season bounds them all and is one of them. */
  lemma SeasonMax(data: seq<Record>, id: string, y: int)
    requires InSeason(data, id, y)
    ensures var m := MaxOf(SeasonPoints(data, id, y));
      && (exists rec :: rec in data && rec.id == id && rec.year == y && rec.points == m)
      && (forall rec :: rec in data && rec.id == id && rec.year == y ==> rec.points <= m)
  {
    var ps := SeasonPoints(data, id, y);
    assert forall rec :: rec in data && rec.id == id && rec.year == y ==> rec.points in ps;
  }

  /**
   * The growth record of an id: its start and end are the largest points of
   * its first-season and last-season records, the growth is their difference,
   * and the name is that of the id's first record.
   */
  lemma GrowthOfSpec(data: seq<Record>, id: string)
    requires Consistent(data, id)
    ensures var g := GrowthOf(data, id);
      && g.growth == g.end - g.start
      && (exists rec :: rec in data && rec.id == id && rec.year == StartSeason && rec.points == g.start)
      && (forall rec :: rec in data && rec.id == id && rec.year == StartSeason ==> rec.points <= g.start)
      && (exists rec :: rec in data && rec.id == id && rec.year == EndSeason && rec.points == g.end)
      && (forall rec :: rec in data && rec.id == id && rec.year == EndSeason ==> rec.points <= g.end)
      && (exists i :: 0 <= i < |data| && data[i].id == id && data[i].name == g.name &&
            (forall j :: 0 <= j < i ==> data[j].id != id))
  {
    SeasonMax(data, id, StartSeason);
    SeasonMax(data, id, EndSeason);
    assert exists rec :: rec in data && rec.id == id by {
      var rec :| rec in data && rec.id == id && rec.year == StartSeason;
    }
  }

  /** `growth_stats`: one entry per consistent id, in the order the ids are listed. */
  function GrowthStats(data: seq<Record>): (stats: seq<Growth>)
    ensures |stats| == |ConsistentIds(data)|
  {
    var ids := ConsistentIds(data);
    seq(|ids|, i requires 0 <= i < |ids| => GrowthOf(data, ids[i]))
  }

  /** The first `i + 1` growth records are the first `i` and the growth of the `i`-th consistent id. */
  lemma GrowthStatsStep(data: seq<Record>, i: nat)
    requires i < |ConsistentIds(data)|
    ensures Consistent(data, ConsistentIds(data)[i])
    ensures GrowthStats(data)[..i + 1] == GrowthStats(data)[..i] + [GrowthOf(data, ConsistentIds(data)[i])]
  {
    var ids, all := ConsistentIds(data), GrowthStats(data);
    assert ids[i] in ids;
    PrefixSnoc(all, i);
    assert all[i] == GrowthOf(data, ids[i]);
  }

  lemma PrefixSnoc<T>(s: seq<T>, i: nat)
    requires i < |s|
    ensures s[..i + 1] == s[..i] + [s[i]]
  {
  }

  /** The growth loop of `analyze_most_progress`. */
  method CollectGrowth(data: seq<Record>) returns (stats: seq<Growth>)
    ensures stats == GrowthStats(data)
  {
    var ids := ConsistentIds(data);
    ghost var all := GrowthStats(data);
    stats := [];
    var i := 0;
    while i < |ids|
      invariant 0 <= i <= |ids| == |all|
      invariant stats == all[..i]
    {
      GrowthStatsStep(data, i);
      stats := stats + [GrowthOf(data, ids[i])];
      i := i + 1;
    }
    assert all[..i] == all;
  }

  /** The entry placed first by sorting on growth, descending: a largest growth; the first such on ties. */
  function TopGrowth(stats: seq<Growth>): (r: Option<Growth>)
    ensures r.None? <==> stats == []
    ensures r.Some? ==> r.value in stats && forall g :: g in stats ==> g.growth <= r.value.growth
  {
    if stats == [] then None
    else
      var rest := TopGrowth(stats[1..]);
      assert forall g :: g in stats <==> g == stats[0] || g in stats[1..];
      if rest.None? || stats[0].growth >= rest.value.growth then Some(stats[0]) else rest
  }

  /** The growth pick over the extracted records; `None` when no id is in both seasons. */
  function Progress(data: seq<Record>): Option<Growth> {
    TopGrowth(GrowthStats(data))
  }

  /** The pick over the records of the files of `years`. */
  function ProgressOver(files: map<int, RawFile>, years: seq<int>): Result<Growth, ProgressError> {
    match YearlyTotals(files, years)
    case Err(e) => Err(e)
    case Ok(data) =>
      match Progress(data)
      case None => Err(NoConsistentPlayer)
      case Some(g) => Ok(g)
  }

  /** `analyze_most_progress` without the chart: the player with the largest growth. */
  function MostProgress(files: map<int, RawFile>): Result<Growth, ProgressError> {
    ProgressOver(files, Seasons)
  }

  /** Each consistent id's growth record is among the growth stats. */
  lemma GrowthListed(data: seq<Record>, id: string)
    requires Consistent(data, id)
    ensures GrowthOf(data, id) in GrowthStats(data)
  {
    ConsistentIdsSpec(data);
    var ids := ConsistentIds(data);
    var i :| 0 <= i < |ids| && ids[i] == id;
    assert GrowthStats(data)[i] == GrowthOf(data, id);
  }

  /** Every growth stat is the growth record of a consistent id. */
  lemma GrowthFromConsistent(data: seq<Record>, g: Growth)
    requires g in GrowthStats(data)
    ensures Consistent(data, g.id)
    ensures g == GrowthOf(data, g.id)
  {
    var ids := ConsistentIds(data);
    var i :| 0 <= i < |GrowthStats(data)| && GrowthStats(data)[i] == g;
    assert ids[i] in ids;
  }

  /** There is no pick exactly when no id is present in both seasons. */
  lemma ProgressNone(data: seq<Record>)
    ensures Progress(data).None? <==> forall id :: !Consistent(data, id)
  {
    if Progress(data).None? {
      forall id ensures !Consistent(data, id) {
        if Consistent(data, id) {
          GrowthListed(data, id);
        }
      }
    } else {
      var g := Progress(data).value;
      GrowthFromConsistent(data, g);
      assert Consistent(data, g.id);
    }
  }

  /** The pick is a consistent id's growth record, and no consistent id grew more. */
  lemma ProgressBest(data: seq<Record>)
    requires Progress(data).Some?
    ensures var g := Progress(data).value;
      && Consistent(data, g.id)
      && g == GrowthOf(data, g.id)
      && forall id :: Consistent(data, id) ==>
           GrowthOf(data, id).growth <= g.growth
  {
    var g := Progress(data).value;
    GrowthFromConsistent(data, g);
    forall id | Consistent(data, id)
      ensures GrowthOf(data, id).growth <= g.growth
    {
      GrowthListed(data, id);
    }
  }

  /**
   * There is no choice exactly when no player is present in both seasons.
   * This holds for any list of seasons read, `Seasons` included.
   */
  lemma MostProgressNone(files: map<int, RawFile>, years: seq<int>)
    requires YearlyTotals(files, years).Ok?
    ensures ProgressOver(files, years) == Err(NoConsistentPlayer) <==>
      forall id :: !Consistent(YearlyTotals(files, years).value, id)
  {
    var data := YearlyTotals(files, years).value;
    ProgressNone(data);
  }

  /**
   * The chosen player is present in both seasons, and no player present in
   * both grew more.
   */
  lemma MostProgressBest(files: map<int, RawFile>, years: seq<int>)
    requires ProgressOver(files, years).Ok?
    ensures var data, g := YearlyTotals(files, years).value, ProgressOver(files, years).value;
      && Consistent(data, g.id) && g == GrowthOf(data, g.id)
      && forall id :: Consistent(data, id) ==> GrowthOf(data, id).growth <= g.growth
  {
    ProgressBest(YearlyTotals(files, years).value);
  }

  /** The whole of `analyze_most_progress` up to the chart. */
  method AnalyzeMostProgress(files: map<int, RawFile>) returns (r: Result<Growth, ProgressError>)
    ensures r == MostProgress(files)
  {
    var data := ExtractYearlyTotals(files);
    if data.Err? {
      return Err(data.error);
    }
    var stats := CollectGrowth(data.value);
    var top := TopGrowth(stats);
    if top.None? {
      return Err(NoConsistentPlayer);
    }
    r := Ok(top.value);
  }
}

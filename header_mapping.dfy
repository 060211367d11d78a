/**
 * The wide-to-long ingest of scripts/mapping/header_mapping.py.
 *
 * A raw ranking file is the grid pandas parses with `header=None`: row 0
 * holds each tournament's location, row 1 its date, row 2 the column
 * headers, and every later row one player. Columns are classified from
 * their header; every named player row then yields one long-format entry
 * per tournament column in which that player scored.
 */
module HeaderMapping {
  import opened Wrappers
  import opened Text
  import Ordering

  /** One parsed CSV cell; `None` is pandas' NaN (an empty field). */
  type Cell = Option<string>

  /** A raw file: its name and the rectangular grid of its cells. */
  datatype RawFile = RawFile(name: string, width: nat, rows: seq<seq<Cell>>)

  /** pandas pads every parsed row to the frame's width. */
  predicate WellFormed(f: RawFile) {
    forall r :: r in f.rows ==> |r| == f.width
  }

  /** Why a run of the mapping stops: `iloc[2]` on a short file, or `row[key]` on a missing column. */
  datatype MappingError = MissingHeaderRows(file: string) | MissingColumn(file: string)

  // ---------------------------------------------------------------------
  // Season year from the file name
  // ---------------------------------------------------------------------

  /** `20\d{2}` matches `s` at index `i`. */
  predicate YearAt(s: string, i: int) {
    0 <= i && i + 4 <= |s| && s[i] == '2' && s[i + 1] == '0' && IsDigit(s[i + 2]) && IsDigit(s[i + 3])
  }

  /** The leftmost match of `20\d{2}` at or after `from`. */
  function FindYear(s: string, from: nat): (r: Option<nat>)
    requires from <= |s|
    ensures r.Some? ==> from <= r.value && YearAt(s, r.value)
    ensures r.Some? ==> forall j :: from <= j < r.value ==> !YearAt(s, j)
    ensures r.None? ==> forall j :: from <= j ==> !YearAt(s, j)
    decreases |s| - from
  {
    if from + 4 > |s| then None
    else if YearAt(s, from) then Some(from)
    else FindYear(s, from + 1)
  }

  const UnknownYear := "Unknown"

  /**
   * `re.search(r'20\d{2}', filename)`: the text of the first match, or
   * "Unknown" when the name holds none.
   */
  function SeasonYear(filename: string): (y: string)
    ensures y == UnknownYear <==> forall i :: !YearAt(filename, i)
    ensures y != UnknownYear ==>
      exists i :: YearAt(filename, i) && y == filename[i..i + 4] && forall j :: 0 <= j < i ==> !YearAt(filename, j)
  {
    match FindYear(filename, 0)
    case None => UnknownYear
    case Some(i) =>
      var y := filename[i..i + 4];
      assert y[0] == '2' && |y| == 4;
      y
  }

  // ---------------------------------------------------------------------
  // Column classification
  // ---------------------------------------------------------------------

  datatype ColumnKind =
    | IdColumn | NameColumn | StateColumn        // player metadata, only among the first four columns
    | TotalColumn | RankColumn                   // season summary columns
    | TournamentColumn                           // one tournament's points
    | OtherColumn                                // anything else is ignored

  /** What the rules test: the cleaned header in lower case. */
  function HeaderKey(header: string): string {
    Lower(CleanText(Some(header)))
  }

  /**
   * The ordered keyword rule of the header loop. The tournament keyword
   * "ranking" can never fire: any header containing it contains "rank"
   * and was already taken as a rank column.
   */
  function KindOf(i: nat, header: string): (k: ColumnKind)
    ensures k in {IdColumn, NameColumn, StateColumn} ==> i < 4
    ensures k in {TotalColumn, RankColumn, TournamentColumn} ==> i >= 4
    ensures k == TournamentColumn ==>
      var h := HeaderKey(header);
      && !Contains(h, "rank")
      && (Contains(h, "institutional") || Contains(h, "national") || Contains(h, "championship"))
  {
    var h := HeaderKey(header);
    if i < 4 then
      if Contains(h, "id") then IdColumn
      else if Contains(h, "name") then NameColumn
      else if Contains(h, "state") || h == "inst." then StateColumn
      else OtherColumn
    else if Contains(h, "points") && !Contains(h, "best") then TotalColumn
    else if Contains(h, "position") || Contains(h, "rank") then RankColumn
    else if Contains(h, "ranking") || Contains(h, "institutional") || Contains(h, "national") || Contains(h, "championship") then
      assert Contains(h, "ranking") ==> Contains(h, "rank") by {
        if Contains(h, "ranking") {
          ContainsPrefix(h, "rank", "ranking");
        }
      }
      TournamentColumn
    else OtherColumn
  }

  /** Among the first four columns "id" beats "name", which beats "state"/"inst.". */
  lemma MetadataPrecedence(i: nat, header: string)
    requires i < 4
    ensures var h, k := HeaderKey(header), KindOf(i, header);
      && (k == IdColumn <==> Contains(h, "id"))
      && (k == NameColumn <==> !Contains(h, "id") && Contains(h, "name"))
      && (k == StateColumn <==> !Contains(h, "id") && !Contains(h, "name") && (Contains(h, "state") || h == "inst."))
  {
  }

  /**
   * From the fifth column on, "points" without "best" makes a total, then
   * "position" or "rank" makes a rank, then a tournament keyword makes a
   * tournament, and anything else is ignored. The keyword "ranking" plays
   * no part: a header holding it is already a rank or a total.
   */
  lemma SummaryPrecedence(i: nat, header: string)
    requires i >= 4
    ensures var h, k := HeaderKey(header), KindOf(i, header);
      var total := Contains(h, "points") && !Contains(h, "best");
      var rank := Contains(h, "position") || Contains(h, "rank");
      var event := Contains(h, "institutional") || Contains(h, "national") || Contains(h, "championship");
      && (k == TotalColumn <==> total)
      && (k == RankColumn <==> !total && rank)
      && (k == TournamentColumn <==> !total && !rank && event)
      && (k == OtherColumn <==> !total && !rank && !event)
  {
    var h := HeaderKey(header);
    if Contains(h, "ranking") {
      ContainsPrefix(h, "rank", "ranking");
    }
  }

  /** The kind of every column, by index. */
  function Kinds(headers: seq<string>): (ks: seq<ColumnKind>)
  {
    seq(|headers|, i requires 0 <= i < |headers| => KindOf(i, headers[i]))
  }

  /** The last column of kind `k`: a later `col_map[key] = i` overwrites an earlier one. */
  function LastOfKind(kinds: seq<ColumnKind>, k: ColumnKind): (r: Option<nat>)
    ensures r.Some? ==> r.value < |kinds| && kinds[r.value] == k
    ensures r.Some? ==> forall j :: r.value < j < |kinds| ==> kinds[j] != k
    ensures r.None? ==> forall j :: 0 <= j < |kinds| ==> kinds[j] != k
  {
    if kinds == [] then None
    else if kinds[|kinds| - 1] == k then Some(|kinds| - 1)
    else LastOfKind(kinds[..|kinds| - 1], k)
  }

  /** `col_map`: where the metadata and summary columns are. */
  datatype ColumnMap = ColumnMap(id: Option<nat>, name: Option<nat>, state: Option<nat>, total: Option<nat>, rank: Option<nat>)

  function ColumnMapOfKinds(kinds: seq<ColumnKind>): ColumnMap {
    ColumnMap(
      LastOfKind(kinds, IdColumn), LastOfKind(kinds, NameColumn), LastOfKind(kinds, StateColumn),
      LastOfKind(kinds, TotalColumn), LastOfKind(kinds, RankColumn))
  }

  function ColumnMapOf(headers: seq<string>): ColumnMap {
    ColumnMapOfKinds(Kinds(headers))
  }

  /** The tournament columns in ascending order. */
  function TournamentsOfKinds(kinds: seq<ColumnKind>): (r: seq<nat>)
    ensures forall t :: t in r <==> 0 <= t < |kinds| && kinds[t] == TournamentColumn
    ensures forall a, b :: 0 <= a < b < |r| ==> r[a] < r[b]
  {
    if kinds == [] then []
    else
      var n := |kinds| - 1;
      var r := TournamentsOfKinds(kinds[..n]);
      assert forall a :: 0 <= a < |r| ==> r[a] in r;
      r + (if kinds[n] == TournamentColumn then [n] else [])
  }

  /** `tournament_indices`. */
  function TournamentColumns(headers: seq<string>): seq<nat> {
    TournamentsOfKinds(Kinds(headers))
  }

  /**
   * Tournament columns are never metadata columns (they start at index 4)
   * and never the total or rank column.
   */
  lemma TournamentColumnsDisjoint(headers: seq<string>)
    ensures var cm, ts := ColumnMapOf(headers), TournamentColumns(headers);
      && (forall t :: t in ts ==> 4 <= t < |headers| && KindOf(t, headers[t]) == TournamentColumn)
      && (cm.total.Some? ==> cm.total.value !in ts)
      && (cm.rank.Some? ==> cm.rank.value !in ts)
      && (cm.id.Some? ==> cm.id.value < 4) && (cm.name.Some? ==> cm.name.value < 4)
      && (cm.state.Some? ==> cm.state.value < 4)
  {
  }

  lemma LastOfKindSnoc(kinds: seq<ColumnKind>, i: nat, k: ColumnKind)
    requires i < |kinds|
    ensures LastOfKind(kinds[..i + 1], k) == if kinds[i] == k then Some(i) else LastOfKind(kinds[..i], k)
  {
    assert kinds[..i + 1][..i] == kinds[..i];
  }

  lemma TournamentsSnoc(kinds: seq<ColumnKind>, i: nat)
    requires i < |kinds|
    ensures TournamentsOfKinds(kinds[..i + 1])
      == TournamentsOfKinds(kinds[..i]) + if kinds[i] == TournamentColumn then [i] else []
  {
    assert kinds[..i + 1][..i] == kinds[..i];
  }

  /** The header loop: fills `col_map` and appends to `tournament_indices`. */
  method ClassifyColumns(headers: seq<string>) returns (cm: ColumnMap, tournaments: seq<nat>)
    ensures cm == ColumnMapOf(headers)
    ensures tournaments == TournamentColumns(headers)
  {
    var kinds := Kinds(headers);
    cm := ColumnMap(None, None, None, None, None);
    tournaments := [];
    var i := 0;
    while i < |headers|
      invariant 0 <= i <= |headers|
      invariant cm == ColumnMapOfKinds(kinds[..i])
      invariant tournaments == TournamentsOfKinds(kinds[..i])
    {
      cm, tournaments := RecordColumn(kinds, i, cm, tournaments);
      i := i + 1;
    }
    assert kinds[..i] == kinds;
  }

  /** One pass of the header loop: column `i` of kind `kinds[i]` updates `col_map` or the tournament list. */
  method RecordColumn(kinds: seq<ColumnKind>, i: nat, cm: ColumnMap, tournaments: seq<nat>)
    returns (cm': ColumnMap, tournaments': seq<nat>)
    requires i < |kinds|
    requires cm == ColumnMapOfKinds(kinds[..i]) && tournaments == TournamentsOfKinds(kinds[..i])
    ensures cm' == ColumnMapOfKinds(kinds[..i + 1]) && tournaments' == TournamentsOfKinds(kinds[..i + 1])
  {
    LastOfKindSnoc(kinds, i, IdColumn);
    LastOfKindSnoc(kinds, i, NameColumn);
    LastOfKindSnoc(kinds, i, StateColumn);
    LastOfKindSnoc(kinds, i, TotalColumn);
    LastOfKindSnoc(kinds, i, RankColumn);
    TournamentsSnoc(kinds, i);
    cm', tournaments' := cm, tournaments;
    match kinds[i] {
      case IdColumn => cm' := cm.(id := Some(i));
      case NameColumn => cm' := cm.(name := Some(i));
      case StateColumn => cm' := cm.(state := Some(i));
      case TotalColumn => cm' := cm.(total := Some(i));
      case RankColumn => cm' := cm.(rank := Some(i));
      case TournamentColumn => tournaments' := tournaments + [i];
      case OtherColumn =>
    }
  }

  // ---------------------------------------------------------------------
  // Row extraction
  // ---------------------------------------------------------------------

  /** `player_base`: the fields every entry of one row shares. */
  datatype PlayerBase = PlayerBase(
    seasonYear: string, ttfiId: Cell, playerName: string, stateInstitution: string,
    totalSeasonalPoints: Cell, finalRankPosition: Cell)

  /** One long-format record: the player's base plus one tournament's points. */
  datatype Entry = Entry(base: PlayerBase, tournamentName: string, location: string, date: string, pointsEarned: string)

  /** `fillna("")` on a header row. */
  function Filled(cells: seq<Cell>): (r: seq<string>)
    ensures |r| == |cells|
  {
    seq(|cells|, i requires 0 <= i < |cells| => cells[i].GetOr(""))
  }

  /** `pd.notna(v) and str(v).strip() != ""`. */
  predicate IsFilled(c: Cell) {
    c.Some? && Strip(c.value) != ""
  }

  /** The column the name test reads: `col_map.get('player_name', 2)`. */
  function NameTestColumn(cm: ColumnMap): nat {
    cm.name.GetOr(2)
  }

  predicate HasAllColumns(cm: ColumnMap) {
    cm.id.Some? && cm.name.Some? && cm.state.Some? && cm.total.Some? && cm.rank.Some?
  }

  /** The file's three header rows and the classification of its columns. */
  datatype Layout = Layout(
    year: string, locations: seq<Cell>, dates: seq<Cell>, headers: seq<string>,
    columns: ColumnMap, tournaments: seq<nat>)

  /** Every column the layout names lies inside rows of width `w`. */
  predicate FitsWidth(lay: Layout, w: nat) {
    && |lay.locations| == w && |lay.dates| == w && |lay.headers| == w
    && (forall t :: t in lay.tournaments ==> t < w)
    && (lay.columns.id.Some? ==> lay.columns.id.value < w)
    && (lay.columns.name.Some? ==> lay.columns.name.value < w)
    && (lay.columns.state.Some? ==> lay.columns.state.value < w)
    && (lay.columns.total.Some? ==> lay.columns.total.value < w)
    && (lay.columns.rank.Some? ==> lay.columns.rank.value < w)
  }

  function BaseOf(lay: Layout, row: seq<Cell>): PlayerBase
    requires FitsWidth(lay, |row|) && HasAllColumns(lay.columns)
  {
    var cm := lay.columns;
    PlayerBase(lay.year, row[cm.id.value], CleanText(row[cm.name.value]), CleanText(row[cm.state.value]),
               row[cm.total.value], row[cm.rank.value])
  }

  function EntryAt(lay: Layout, base: PlayerBase, row: seq<Cell>, t: nat): Entry
    requires FitsWidth(lay, |row|) && FilledAt(row, t)
  {
    Entry(base, CleanText(Some(lay.headers[t])), CleanText(lay.locations[t]), CleanText(lay.dates[t]), row[t].value)
  }

  /** Column `t` lies inside `row` and its cell is filled. */
  predicate FilledAt(row: seq<Cell>, t: nat) {
    t < |row| && IsFilled(row[t])
  }

  /** The tournament columns in `ts` whose cell in `row` is filled, in order. */
  function FilledColumns(row: seq<Cell>, ts: seq<nat>): (r: seq<nat>)
    ensures forall t :: t in r <==> t in ts && FilledAt(row, t)
  {
    if ts == [] then []
    else (if FilledAt(row, ts[0]) then [ts[0]] else []) + FilledColumns(row, ts[1..])
  }

  /** The filled columns keep the order of the tournament list. */
  lemma {:induction false} FilledColumnsInOrder(row: seq<Cell>, ts: seq<nat>)
    ensures Ordering.IsSubsequence(FilledColumns(row, ts), ts)
  {
    if ts != [] {
      var t, rest := ts[0], ts[1..];
      FilledColumnsInOrder(row, rest);
      Ordering.SubsequenceCons(FilledColumns(row, rest), rest, t);
      assert ts == [t] + rest;
      if FilledAt(row, t) {
        assert FilledColumns(row, ts) == [t] + FilledColumns(row, rest);
      } else {
        assert FilledColumns(row, ts) == FilledColumns(row, rest);
      }
    }
  }

  /** A filled column is listed as often as the tournament list holds it, and no other column. */
  lemma {:induction false} FilledColumnsCount(row: seq<Cell>, ts: seq<nat>, t: nat)
    ensures multiset(FilledColumns(row, ts))[t] == if FilledAt(row, t) then multiset(ts)[t] else 0
  {
    if ts != [] {
      var rest := ts[1..];
      FilledColumnsCount(row, rest, t);
      assert ts == [ts[0]] + rest;
      assert multiset(ts) == multiset{ts[0]} + multiset(rest);
      if FilledAt(row, ts[0]) {
        assert FilledColumns(row, ts) == [ts[0]] + FilledColumns(row, rest);
        assert multiset([ts[0]] + FilledColumns(row, rest)) == multiset{ts[0]} + multiset(FilledColumns(row, rest));
      } else {
        assert FilledColumns(row, ts) == FilledColumns(row, rest);
      }
    }
  }

  /** The inner loop: one entry per tournament column with a filled cell. */
  function TournamentEntries(lay: Layout, base: PlayerBase, row: seq<Cell>, ts: seq<nat>): seq<Entry>
    requires FitsWidth(lay, |row|)
  {
    if ts == [] then []
    else
      (if FilledAt(row, ts[0]) then [EntryAt(lay, base, row, ts[0])] else [])
      + TournamentEntries(lay, base, row, ts[1..])
  }

  /**
   * A kept row yields exactly one entry per filled tournament column, in
   * column order, each carrying that column's cleaned header, location
   * and date and the row's shared base.
   */
  lemma {:induction false} TournamentEntriesExact(lay: Layout, base: PlayerBase, row: seq<Cell>, ts: seq<nat>)
    requires FitsWidth(lay, |row|)
    ensures var es, cs := TournamentEntries(lay, base, row, ts), FilledColumns(row, ts);
      && |es| == |cs|
      && forall k :: 0 <= k < |es| ==> FilledAt(row, cs[k]) && es[k] == EntryAt(lay, base, row, cs[k])
  {
    if ts != [] {
      TournamentEntriesExact(lay, base, row, ts[1..]);
      var es, cs := TournamentEntries(lay, base, row, ts[1..]), FilledColumns(row, ts[1..]);
      if FilledAt(row, ts[0]) {
        assert TournamentEntries(lay, base, row, ts) == [EntryAt(lay, base, row, ts[0])] + es;
        assert FilledColumns(row, ts) == [ts[0]] + cs;
      } else {
        assert TournamentEntries(lay, base, row, ts) == es;
        assert FilledColumns(row, ts) == cs;
      }
    }
  }

  /** One data row of the file: skipped, expanded, or a `KeyError`. */
  function RowEntries(lay: Layout, file: string, row: seq<Cell>): (r: Result<seq<Entry>, MappingError>)
    requires FitsWidth(lay, |row|)
    ensures NameTestColumn(lay.columns) < |row| && row[NameTestColumn(lay.columns)].None? ==> r == Ok([])
    ensures r.Ok? && r.value != [] ==> HasAllColumns(lay.columns)
    ensures var c := NameTestColumn(lay.columns);
      r.Err? <==> c >= |row| || (row[c].Some? && !HasAllColumns(lay.columns))
    ensures var c := NameTestColumn(lay.columns);
      r.Ok? && c < |row| && row[c].Some? ==>
        HasAllColumns(lay.columns) && r.value == TournamentEntries(lay, BaseOf(lay, row), row, lay.tournaments)
  {
    var c := NameTestColumn(lay.columns);
    if c >= |row| then Err(MissingColumn(file))
    else if row[c].None? then Ok([])
    else if !HasAllColumns(lay.columns) then Err(MissingColumn(file))
    else Ok(TournamentEntries(lay, BaseOf(lay, row), row, lay.tournaments))
  }

  /** The outer row loop; the first failing row stops the run. */
  function RowsEntries(lay: Layout, file: string, rows: seq<seq<Cell>>): Result<seq<Entry>, MappingError>
    requires forall r :: r in rows ==> FitsWidth(lay, |r|)
  {
    if rows == [] then Ok([])
    else
      match RowEntries(lay, file, rows[0])
      case Err(e) => Err(e)
      case Ok(es) =>
        match RowsEntries(lay, file, rows[1..])
        case Err(e) => Err(e)
        case Ok(rest) => Ok(es + rest)
  }

  function LayoutOf(f: RawFile): (lay: Layout)
    requires WellFormed(f) && |f.rows| >= 3
    ensures FitsWidth(lay, f.width)
  {
    var headers := Filled(f.rows[2]);
    assert f.rows[0] in f.rows && f.rows[1] in f.rows && f.rows[2] in f.rows;
    Layout(SeasonYear(f.name), f.rows[0], f.rows[1], headers, ColumnMapOf(headers), TournamentColumns(headers))
  }

  /** Everything one raw file contributes to the long table. */
  function FileEntries(f: RawFile): Result<seq<Entry>, MappingError>
    requires WellFormed(f)
  {
    if |f.rows| < 3 then Err(MissingHeaderRows(f.name))
    else RowsEntries(LayoutOf(f), f.name, f.rows[3..])
  }

  /** Every entry of a file carries the file's season year and a filled points cell. */
  lemma {:induction false} RowsEntriesShape(lay: Layout, file: string, rows: seq<seq<Cell>>)
    requires forall r :: r in rows ==> FitsWidth(lay, |r|)
    ensures RowsEntries(lay, file, rows).Ok? ==>
      forall e :: e in RowsEntries(lay, file, rows).value ==>
        e.base.seasonYear == lay.year && Strip(e.pointsEarned) != ""
  {
    if rows != [] {
      RowsEntriesShape(lay, file, rows[1..]);
      var row := rows[0];
      if RowEntries(lay, file, row).Ok? && RowEntries(lay, file, row).value != [] {
        TournamentEntriesExact(lay, BaseOf(lay, row), row, lay.tournaments);
        var es := RowEntries(lay, file, row).value;
        forall e | e in es ensures e.base.seasonYear == lay.year && Strip(e.pointsEarned) != "" {
          var k :| 0 <= k < |es| && es[k] == e;
        }
      }
    }
  }

  /** Appends the entries of a successful step to what was collected before. */
  function Then(prefix: seq<Entry>, r: Result<seq<Entry>, MappingError>): Result<seq<Entry>, MappingError> {
    match r
    case Ok(es) => Ok(prefix + es)
    case Err(e) => Err(e)
  }

  lemma TournamentEntriesStep(lay: Layout, base: PlayerBase, row: seq<Cell>, ts: seq<nat>, k: nat)
    requires FitsWidth(lay, |row|)
    requires k < |ts|
    ensures TournamentEntries(lay, base, row, ts[k..])
      == (if FilledAt(row, ts[k]) then [EntryAt(lay, base, row, ts[k])] else [])
         + TournamentEntries(lay, base, row, ts[k + 1..])
  {
    assert ts[k..][1..] == ts[k + 1..];
  }

  /** The inner loop as the source writes it: copies the base and appends. */
  method AppendTournamentEntries(lay: Layout, base: PlayerBase, row: seq<Cell>, acc: seq<Entry>)
    returns (out: seq<Entry>)
    requires FitsWidth(lay, |row|)
    ensures out == acc + TournamentEntries(lay, base, row, lay.tournaments)
  {
    out := acc;
    var ts := lay.tournaments;
    var k := 0;
    while k < |ts|
      invariant 0 <= k <= |ts|
      invariant out + TournamentEntries(lay, base, row, ts[k..]) == acc + TournamentEntries(lay, base, row, ts)
    {
      TournamentEntriesStep(lay, base, row, ts, k);
      ghost var rest := TournamentEntries(lay, base, row, ts[k + 1..]);
      var t := ts[k];
      if t < |row| && IsFilled(row[t]) {
        var e := EntryAt(lay, base, row, t);
        assert (out + [e]) + rest == out + ([e] + rest);
        out := out + [e];
      }
      k := k + 1;
    }
  }

  lemma RowsEntriesStep(lay: Layout, file: string, rows: seq<seq<Cell>>, out: seq<Entry>)
    requires forall r :: r in rows ==> FitsWidth(lay, |r|)
    requires rows != []
    ensures rows[0] in rows && forall r :: r in rows[1..] ==> r in rows
    ensures Then(out, RowsEntries(lay, file, rows)) ==
      match RowEntries(lay, file, rows[0])
      case Err(e) => Err(e)
      case Ok(es) => Then(out + es, RowsEntries(lay, file, rows[1..]))
  {
    assert rows[0] in rows;
    match RowEntries(lay, file, rows[0])
    case Err(e) =>
    case Ok(es) =>
      match RowsEntries(lay, file, rows[1..])
      case Err(e) =>
      case Ok(rest) => assert out + (es + rest) == (out + es) + rest;
  }

  /** One pass of the row loop: the name test, then the inner loop. */
  method MapRow(lay: Layout, file: string, row: seq<Cell>, acc: seq<Entry>) returns (r: Result<seq<Entry>, MappingError>)
    requires FitsWidth(lay, |row|)
    ensures r == Then(acc, RowEntries(lay, file, row))
  {
    var c := NameTestColumn(lay.columns);
    if c >= |row| {
      return Err(MissingColumn(file));
    }
    if row[c].None? {
      assert acc + [] == acc;
      return Ok(acc);
    }
    if !HasAllColumns(lay.columns) {
      return Err(MissingColumn(file));
    }
    var out := AppendTournamentEntries(lay, BaseOf(lay, row), row, acc);
    return Ok(out);
  }

  /** The header part of the per-file step: year, header rows and column map. */
  method ReadLayout(f: RawFile) returns (lay: Layout)
    requires WellFormed(f) && |f.rows| >= 3
    ensures lay == LayoutOf(f)
  {
    var headers := Filled(f.rows[2]);
    var cm, tournaments := ClassifyColumns(headers);
    lay := Layout(SeasonYear(f.name), f.rows[0], f.rows[1], headers, cm, tournaments);
  }

  /** Row `i` of the data rows through `MapRow`, leaving the rows after it to map. */
  method MapNextRow(lay: Layout, file: string, data: seq<seq<Cell>>, i: nat, out: seq<Entry>,
                    ghost goal: Result<seq<Entry>, MappingError>)
    returns (step: Result<seq<Entry>, MappingError>)
    requires i < |data| && forall r :: r in data[i..] ==> FitsWidth(lay, |r|)
    requires goal == Then(out, RowsEntries(lay, file, data[i..]))
    ensures forall r :: r in data[i + 1..] ==> FitsWidth(lay, |r|)
    ensures step.Err? ==> step == goal
    ensures step.Ok? ==> goal == Then(step.value, RowsEntries(lay, file, data[i + 1..]))
  {
    RowsEntriesStep(lay, file, data[i..], out);
    assert data[i..][1..] == data[i + 1..];
    step := MapRow(lay, file, data[i], out);
  }

  /** The per-file part of `run_mapping_pipeline`. */
  method MapFile(f: RawFile, acc: seq<Entry>) returns (r: Result<seq<Entry>, MappingError>)
    requires WellFormed(f)
    ensures r == Then(acc, FileEntries(f))
  {
    if |f.rows| < 3 {
      return Err(MissingHeaderRows(f.name));
    }
    var lay := ReadLayout(f);
    var data := f.rows[3..];
    assert forall r :: r in data ==> r in f.rows;
    var out := acc;
    ghost var goal := Then(acc, FileEntries(f));
    var i := 0;
    while i < |data|
      invariant 0 <= i <= |data|
      invariant forall r :: r in data[i..] ==> FitsWidth(lay, |r|)
      invariant goal == Then(out, RowsEntries(lay, f.name, data[i..]))
    {
      var step := MapNextRow(lay, f.name, data, i, out, goal);
      match step {
        case Err(e) => return Err(e);
        case Ok(es) => out := es;
      }
      i := i + 1;
    }
    assert out + [] == out;
    return Ok(out);
  }

  /** `filename.endswith('.csv')`. */
  predicate IsCsv(name: string) {
    |name| >= 4 && name[|name| - 4..] == ".csv"
  }

  /** The long table of a whole run: the `.csv` files in listing order, concatenated. */
  function PipelineEntries(files: seq<RawFile>): Result<seq<Entry>, MappingError>
    requires forall f :: f in files ==> WellFormed(f)
  {
    if files == [] then Ok([])
    else if !IsCsv(files[0].name) then PipelineEntries(files[1..])
    else
      match FileEntries(files[0])
      case Err(e) => Err(e)
      case Ok(es) =>
        match PipelineEntries(files[1..])
        case Err(e) => Err(e)
        case Ok(rest) => Ok(es + rest)
  }

  lemma PipelineEntriesStep(files: seq<RawFile>, out: seq<Entry>)
    requires forall f :: f in files ==> WellFormed(f)
    requires files != []
    ensures WellFormed(files[0]) && forall f :: f in files[1..] ==> f in files
    ensures Then(out, PipelineEntries(files)) ==
      if !IsCsv(files[0].name) then Then(out, PipelineEntries(files[1..]))
      else
        match FileEntries(files[0])
        case Err(e) => Err(e)
        case Ok(es) => Then(out + es, PipelineEntries(files[1..]))
  {
    assert files[0] in files;
    if IsCsv(files[0].name) {
      match FileEntries(files[0])
      case Err(e) =>
      case Ok(es) =>
        match PipelineEntries(files[1..])
        case Err(e) =>
        case Ok(rest) => assert out + (es + rest) == (out + es) + rest;
    }
  }

  /** `run_mapping_pipeline` over an in-memory directory listing. */
  method RunMappingPipeline(files: seq<RawFile>) returns (r: Result<seq<Entry>, MappingError>)
    requires forall f :: f in files ==> WellFormed(f)
    ensures r == PipelineEntries(files)
  {
    var all: seq<Entry> := [];
    var i := 0;
    assert Then([], PipelineEntries(files)) == PipelineEntries(files) by {
      match PipelineEntries(files)
      case Err(e) =>
      case Ok(es) => assert [] + es == es;
    }
    while i < |files|
      invariant 0 <= i <= |files|
      invariant forall f :: f in files[i..] ==> WellFormed(f)
      invariant PipelineEntries(files) == Then(all, PipelineEntries(files[i..]))
    {
      PipelineEntriesStep(files[i..], all);
      assert files[i..][1..] == files[i + 1..];
      if IsCsv(files[i].name) {
        var res := MapFile(files[i], all);
        match res {
          case Err(e) => return Err(e);
          case Ok(es) => all := es;
        }
      }
      i := i + 1;
    }
    assert all + [] == all;
    return Ok(all);
  }
}

/**
 * `run_elo_simulation`: every id in the long table starts at rating 1500;
 * tournaments are visited in ascending (season, tournament name) order,
 * and inside each tournament, whose entrants are sorted by points earned
 * (highest first), every entrant "beats" every entrant listed after it.
 * The rating table is a dictionary updated in place, one virtual match at
 * a time. The logistic expectation `1 / (1 + 10 ** ((rb - ra) / 400))` is a
 * parameter `expected`; the properties that need it assume only that it lies
 * strictly between 0 and 1.
 */
module Elo {
  import opened Wrappers
  import opened Text
  import opened Ordering
  import opened LongTable

  /** `K_FACTOR`. */
  const K: real := 32.0
  const InitialRating: real := 1500.0

  /** `calculate_elo` without its final rounding. */
  function CalculateElo(expected: (real, real) -> real, ra: real, rb: real, actual: real): real {
    ra + K * (actual - expected(ra, rb))
  }

  /**
   * With an expectation strictly between 0 and 1, the winner (`actual` 1)
   * gains less than K and the loser (`actual` 0) loses less than K.
   */
  lemma CalculateEloBounds(expected: (real, real) -> real, ra: real, rb: real)
    requires 0.0 < expected(ra, rb) < 1.0
    ensures ra < CalculateElo(expected, ra, rb, 1.0) < ra + K
    ensures ra - K < CalculateElo(expected, ra, rb, 0.0) < ra
  {
  }

  /** `{pid: 1500 for pid in unique_players}`. */
  function InitialRatings(ids: seq<string>): (m: map<string, real>)
    ensures forall id :: id in m <==> id in ids
    ensures forall id :: id in m ==> m[id] == InitialRating
  {
    map id | id in ids :: InitialRating
  }

  /**
   * One virtual match won by `p1`: both new ratings come from the ratings
   * before the match, and no other entry changes. When `p1 == p2` the
   * second write wins, as with the dictionary.
   */
  function Match(m: map<string, real>, expected: (real, real) -> real, p1: string, p2: string): (r: map<string, real>)
    requires p1 in m && p2 in m
    ensures r.Keys == m.Keys
    ensures forall x :: x in m && x != p1 && x != p2 ==> r[x] == m[x]
  {
    m[p1 := CalculateElo(expected, m[p1], m[p2], 1.0)][p2 := CalculateElo(expected, m[p2], m[p1], 0.0)]
  }

  /** With a proper expectation the winner rises and the loser falls, each by less than K. */
  lemma MatchMovesRatings(m: map<string, real>, expected: (real, real) -> real, p1: string, p2: string)
    requires p1 in m && p2 in m && p1 != p2
    requires 0.0 < expected(m[p1], m[p2]) < 1.0 && 0.0 < expected(m[p2], m[p1]) < 1.0
    ensures var r := Match(m, expected, p1, p2);
      && m[p1] < r[p1] < m[p1] + K
      && m[p2] - K < r[p2] < m[p2]
  {
    CalculateEloBounds(expected, m[p1], m[p2]);
    CalculateEloBounds(expected, m[p2], m[p1]);
  }

  /**
   * When the expectation is symmetric (the logistic curve is), a match
   * moves rating points from the loser to the winner and creates none.
   */
  lemma MatchZeroSum(m: map<string, real>, expected: (real, real) -> real, p1: string, p2: string)
    requires p1 in m && p2 in m && p1 != p2
    requires expected(m[p2], m[p1]) == 1.0 - expected(m[p1], m[p2])
    ensures var r := Match(m, expected, p1, p2);
      r[p1] + r[p2] == m[p1] + m[p2]
  {
  }

  // ---------------------------------------------------------------------
  // The round-robin schedule of one tournament
  // ---------------------------------------------------------------------

  /** The matches `(i, j), (i, j + 1), .., (i, n - 1)`: the inner loop from `j` on. */
  function Row(i: nat, j: nat, n: nat): (s: seq<(nat, nat)>)
    decreases n - j
    ensures |s| == if j < n then n - j else 0
    ensures forall k :: 0 <= k < |s| ==> s[k] == (i, j + k)
  {
    if j >= n then [] else [(i, j)] + Row(i, j + 1, n)
  }

  /** The matches of outer rounds `i .. n - 1`. */
  function RoundsFrom(i: nat, n: nat): (s: seq<(nat, nat)>)
    decreases n - i
    ensures forall k :: 0 <= k < |s| ==> i <= s[k].0 < s[k].1 < n
  {
    if i >= n then [] else Row(i, i + 1, n) + RoundsFrom(i + 1, n)
  }

  /** The whole schedule: `for i in range(n): for j in range(i + 1, n)`. */
  function Pairs(n: nat): seq<(nat, nat)> {
    RoundsFrom(0, n)
  }

  /** 0 + 1 + ... + (n - 1). */
  function Triangle(n: nat): nat {
    if n == 0 then 0 else Triangle(n - 1) + (n - 1)
  }

  lemma {:induction false} TriangleClosed(n: nat)
    ensures 2 * Triangle(n) == n * (n - 1)
  {
    if n > 0 {
      TriangleClosed(n - 1);
      assert n * (n - 1) == (n - 1) * (n - 2) + 2 * (n - 1);
    }
  }

  lemma {:induction false} RoundsFromCount(i: nat, n: nat)
    requires i <= n
    ensures |RoundsFrom(i, n)| == Triangle(n - i)
    decreases n - i
  {
    if i < n {
      RoundsFromCount(i + 1, n);
      assert |RoundsFrom(i, n)| == (n - i - 1) + |RoundsFrom(i + 1, n)|;
    }
  }

  /** A tournament of n entrants plays n(n - 1)/2 matches. */
  lemma PairsCount(n: nat)
    ensures 2 * |Pairs(n)| == n * (n - 1)
  {
    RoundsFromCount(0, n);
    TriangleClosed(n);
  }

  lemma {:induction false} RoundsFromMembers(i: nat, n: nat, a: nat, b: nat)
    requires i <= a < b < n
    ensures (a, b) in RoundsFrom(i, n)
    decreases n - i
  {
    var row := Row(i, i + 1, n);
    assert RoundsFrom(i, n) == row + RoundsFrom(i + 1, n);
    if a == i {
      assert row[b - i - 1] == (a, b);
      assert (a, b) in row;
    } else {
      RoundsFromMembers(i + 1, n, a, b);
    }
  }

  /** Every pair `a < b` of entrants meets, and no other pair does. */
  lemma PairsMembers(n: nat, a: nat, b: nat)
    ensures (a, b) in Pairs(n) <==> a < b < n
  {
    if a < b < n {
      RoundsFromMembers(0, n, a, b);
    }
  }

  /** Schedule order: by the first entrant, then by the second. */
  predicate PairLess(p: (nat, nat), q: (nat, nat)) {
    p.0 < q.0 || (p.0 == q.0 && p.1 < q.1)
  }

  lemma {:induction false} RoundsFromSorted(i: nat, n: nat)
    ensures StrictlySorted(RoundsFrom(i, n), PairLess)
    decreases n - i
  {
    if i < n {
      RoundsFromSorted(i + 1, n);
      var s, t := Row(i, i + 1, n), RoundsFrom(i + 1, n);
      forall a, b | 0 <= a < b < |s + t| ensures PairLess((s + t)[a], (s + t)[b]) {
        if b < |s| {
          assert (s + t)[a] == s[a] && (s + t)[b] == s[b];
        } else if a >= |s| {
          assert (s + t)[a] == t[a - |s|] && (s + t)[b] == t[b - |s|];
        } else {
          assert (s + t)[a] == s[a] && (s + t)[b] == t[b - |s|];
        }
      }
    }
  }

  /** Every pair meets exactly once, in schedule order. */
  lemma PairsOnce(n: nat)
    ensures StrictlySorted(Pairs(n), PairLess)
    ensures Distinct(Pairs(n))
  {
    RoundsFromSorted(0, n);
    var s := Pairs(n);
    forall a, b | 0 <= a < b < |s| ensures s[a] != s[b] {
      assert PairLess(s[a], s[b]);
    }
  }

  /** The ratings after the matches `s` of the entrant list `pids`, played in order. */
  function PlaySchedule(m: map<string, real>, expected: (real, real) -> real, pids: seq<string>, s: seq<(nat, nat)>): (r: map<string, real>)
    requires forall x :: x in pids ==> x in m
    requires forall k :: 0 <= k < |s| ==> s[k].0 < |pids| && s[k].1 < |pids|
    ensures r.Keys == m.Keys
    decreases |s|
  {
    if s == [] then m
    else PlaySchedule(Match(m, expected, pids[s[0].0], pids[s[0].1]), expected, pids, s[1..])
  }

  /** The inner loop's step: match `(i, j)` first, then the rest of the row. */
  lemma PlayRowStep(m: map<string, real>, after: map<string, real>, goal: map<string, real>,
                    expected: (real, real) -> real, pids: seq<string>, i: nat, j: nat)
    requires forall x :: x in pids ==> x in m
    requires i < j < |pids|
    requires PlaySchedule(m, expected, pids, Row(i, j, |pids|)) == goal
    requires after == Match(m, expected, pids[i], pids[j])
    ensures forall x :: x in pids ==> x in after
    ensures PlaySchedule(after, expected, pids, Row(i, j + 1, |pids|)) == goal
  {
    var s := Row(i, j, |pids|);
    assert s[0] == (i, j) && s[1..] == Row(i, j + 1, |pids|);
  }

  /** Playing `s` and then `t` is playing `s + t`. */
  lemma {:induction false} PlayScheduleAppend(m: map<string, real>, expected: (real, real) -> real, pids: seq<string>, s: seq<(nat, nat)>, t: seq<(nat, nat)>)
    requires forall x :: x in pids ==> x in m
    requires forall k :: 0 <= k < |s| ==> s[k].0 < |pids| && s[k].1 < |pids|
    requires forall k :: 0 <= k < |t| ==> t[k].0 < |pids| && t[k].1 < |pids|
    ensures forall k :: 0 <= k < |s + t| ==> (s + t)[k].0 < |pids| && (s + t)[k].1 < |pids|
    ensures PlaySchedule(m, expected, pids, s + t)
         == PlaySchedule(PlaySchedule(m, expected, pids, s), expected, pids, t)
    decreases |s|
  {
    if s == [] {
      assert s + t == t;
    } else {
      var m1 := Match(m, expected, pids[s[0].0], pids[s[0].1]);
      assert (s + t)[0] == s[0] && (s + t)[1..] == s[1..] + t;
      PlayScheduleAppend(m1, expected, pids, s[1..], t);
    }
  }

  /** The outer loop's step: round `i` first, then the later rounds. */
  lemma PlayRoundsStep(m: map<string, real>, after: map<string, real>, goal: map<string, real>,
                       expected: (real, real) -> real, pids: seq<string>, i: nat)
    requires forall x :: x in pids ==> x in m
    requires i < |pids|
    requires PlaySchedule(m, expected, pids, RoundsFrom(i, |pids|)) == goal
    requires after == PlaySchedule(m, expected, pids, Row(i, i + 1, |pids|))
    ensures forall x :: x in pids ==> x in after
    ensures PlaySchedule(after, expected, pids, RoundsFrom(i + 1, |pids|)) == goal
  {
    PlayScheduleAppend(m, expected, pids, Row(i, i + 1, |pids|), RoundsFrom(i + 1, |pids|));
  }

  /** The ratings after one tournament whose standings are `pids`. */
  function RoundRobin(m: map<string, real>, expected: (real, real) -> real, pids: seq<string>): map<string, real>
    requires forall x :: x in pids ==> x in m
  {
    PlaySchedule(m, expected, pids, Pairs(|pids|))
  }

  /** A player who did not enter the tournament keeps their rating. */
  lemma {:induction false} PlayScheduleOutside(m: map<string, real>, expected: (real, real) -> real, pids: seq<string>, s: seq<(nat, nat)>, x: string)
    requires forall y :: y in pids ==> y in m
    requires forall k :: 0 <= k < |s| ==> s[k].0 < |pids| && s[k].1 < |pids|
    requires x in m && x !in pids
    ensures PlaySchedule(m, expected, pids, s)[x] == m[x]
    decreases |s|
  {
    if s != [] {
      assert pids[s[0].0] in pids && pids[s[0].1] in pids;
      var m1 := Match(m, expected, pids[s[0].0], pids[s[0].1]);
      PlayScheduleOutside(m1, expected, pids, s[1..], x);
    }
  }

  /** Nobody's rating moves in a tournament of one. */
  lemma RoundRobinAlone(m: map<string, real>, expected: (real, real) -> real, pids: seq<string>)
    requires forall x :: x in pids ==> x in m
    requires |pids| <= 1
    ensures RoundRobin(m, expected, pids) == m
  {
    PairsCount(|pids|);
  }

  // ---------------------------------------------------------------------
  // Tournaments and standings
  // ---------------------------------------------------------------------

  datatype TournamentKey = TournamentKey(year: int, name: string)

  function KeyOf(r: LongRow): TournamentKey {
    TournamentKey(r.year, r.tournament)
  }

  /** `sort_values(by=['season_year', 'tournament_name'])` order. */
  predicate TournamentLess(a: TournamentKey, b: TournamentKey) {
    a.year < b.year || (a.year == b.year && StrLess(a.name, b.name))
  }

  lemma TournamentLessIsStrictTotal()
    ensures IsStrictOrder(TournamentLess) && IsTotal(TournamentLess)
  {
    StrLessIsStrictTotal();
  }

  /** The group key of every row whose tournament name is present; `groupby` drops a missing one. */
  function KeysOf(df: seq<LongRow>): (ks: seq<TournamentKey>)
    ensures forall k :: k in ks <==> exists r :: r in df && r.tournament != "" && KeyOf(r) == k
  {
    if df == [] then []
    else KeysOf(df[..|df| - 1]) + (if df[|df| - 1].tournament != "" then [KeyOf(df[|df| - 1])] else [])
  }

  /**
   * The groups of `groupby(['season_year', 'tournament_name'])`, in the
   * order visited; rows with a missing tournament name form no group.
   */
  function TournamentKeys(df: seq<LongRow>): (ks: seq<TournamentKey>)
    ensures StrictlySorted(ks, TournamentLess)
    ensures forall k :: k in ks <==> exists r :: r in df && r.tournament != "" && KeyOf(r) == k
    ensures forall k :: k in ks ==> k.name != ""
  {
    TournamentLessIsStrictTotal();
    SortedKeys(KeysOf(df), TournamentLess)
  }

  /** The rows of one tournament, in table order. */
  function RowsOfTournament(df: seq<LongRow>, k: TournamentKey): (g: seq<LongRow>)
    ensures |g| <= |df|
    ensures forall r :: r in g <==> r in df && KeyOf(r) == k
  {
    if df == [] then []
    else RowsOfTournament(df[..|df| - 1], k) + (if KeyOf(df[|df| - 1]) == k then [df[|df| - 1]] else [])
  }

  /**
   * The `points_earned` cell as pandas reads it: a missing cell is NaN, and
   * the column is taken to be numeric (a text that is not a number is also
   * read as NaN here).
   */
  function EntryPoints(r: LongRow): Option<real> {
    match r.points
    case None => None
    case Some(t) => ParseDecimal(t)
  }

  /** `sort_values(by='points_earned', ascending=False)`: larger points first, NaN last. */
  predicate PointsBefore(a: LongRow, b: LongRow) {
    EntryPoints(a).Some? && (EntryPoints(b).None? || EntryPoints(a).value > EntryPoints(b).value)
  }

  lemma PointsBeforeIsStrict()
    ensures IsStrictOrder(PointsBefore)
  {
  }

  /** A tournament's entries, highest points first. */
  function StandingRows(df: seq<LongRow>, k: TournamentKey): (s: seq<LongRow>)
    ensures SortedBy(s, PointsBefore)
    ensures multiset(s) == multiset(RowsOfTournament(df, k))
  {
    PointsBeforeIsStrict();
    SortStable(RowsOfTournament(df, k), PointsBefore)
  }

  /** `standings['ttfi_id'].tolist()`. */
  function Standings(df: seq<LongRow>, k: TournamentKey): (pids: seq<string>)
    ensures |pids| == |RowsOfTournament(df, k)|
    ensures forall x :: x in pids ==> exists r :: r in df && r.id == x && KeyOf(r) == k
  {
    var s := StandingRows(df, k);
    assert |s| == |multiset(s)| == |multiset(RowsOfTournament(df, k))| == |RowsOfTournament(df, k)|;
    forall x | x in Ids(s) ensures exists r :: r in df && r.id == x && KeyOf(r) == k {
      var r :| r in s && r.id == x;
      assert r in multiset(RowsOfTournament(df, k));
    }
    Ids(s)
  }

  /** In every match of a tournament, the winner did not finish below the loser. */
  lemma WinnerFinishedHigher(df: seq<LongRow>, k: TournamentKey, a: nat, b: nat)
    requires (a, b) in Pairs(|StandingRows(df, k)|)
    ensures var s := StandingRows(df, k);
      a < b < |s| && Standings(df, k)[a] == s[a].id && Standings(df, k)[b] == s[b].id
      && !PointsBefore(s[b], s[a])
  {
    PairsMembers(|StandingRows(df, k)|, a, b);
  }

  /** The ratings after the tournaments `ks`, in order. */
  function PlayTournaments(m: map<string, real>, expected: (real, real) -> real, df: seq<LongRow>, ks: seq<TournamentKey>): (r: map<string, real>)
    requires forall r :: r in df ==> r.id in m
    ensures r.Keys == m.Keys
  {
    if ks == [] then m
    else
      var before := PlayTournaments(m, expected, df, ks[..|ks| - 1]);
      RoundRobin(before, expected, Standings(df, ks[|ks| - 1]))
  }

  /** Playing one more tournament after the tournaments `ks`. */
  lemma PlayTournamentsStep(m: map<string, real>, before: map<string, real>, after: map<string, real>,
                            expected: (real, real) -> real, df: seq<LongRow>, ks: seq<TournamentKey>, k: nat)
    requires forall r :: r in df ==> r.id in m
    requires k < |ks|
    requires before == PlayTournaments(m, expected, df, ks[..k])
    requires forall x :: x in Standings(df, ks[k]) ==> x in before
    requires after == RoundRobin(before, expected, Standings(df, ks[k]))
    ensures after == PlayTournaments(m, expected, df, ks[..k + 1])
  {
    assert ks[..k + 1][..k] == ks[..k];
  }

  /** Every entrant of a tournament already has a rating. */
  lemma StandingsRated(m: map<string, real>, expected: (real, real) -> real, df: seq<LongRow>, ks: seq<TournamentKey>, k: TournamentKey)
    requires forall r :: r in df ==> r.id in m
    ensures forall x :: x in Standings(df, k) ==> x in PlayTournaments(m, expected, df, ks)
  {
  }

  lemma InitialRatingsCoverTable(df: seq<LongRow>)
    ensures forall r :: r in df ==> r.id in InitialRatings(Ids(df))
  {
  }

  /** The final `player_ratings` dictionary. */
  function Simulate(expected: (real, real) -> real, df: seq<LongRow>): map<string, real> {
    PlayTournaments(InitialRatings(Ids(df)), expected, df, TournamentKeys(df))
  }

  /**
   * Rows whose tournament name is missing form no tournament: when every
   * row lacks one, no match is played and every id keeps 1500.
   */
  lemma BlankTournamentsPlayNoMatch(expected: (real, real) -> real, df: seq<LongRow>)
    requires forall r :: r in df ==> r.tournament == ""
    ensures forall id :: id in Ids(df) ==> id in Simulate(expected, df) && Simulate(expected, df)[id] == InitialRating
  {
    KeysOfBlank(df);
    TournamentLessIsStrictTotal();
    assert TournamentKeys(df) == SortedKeys([], TournamentLess);
  }

  lemma {:induction false} KeysOfBlank(df: seq<LongRow>)
    requires forall r :: r in df ==> r.tournament == ""
    ensures KeysOf(df) == []
  {
    if df != [] {
      assert df[|df| - 1] in df;
      KeysOfBlank(df[..|df| - 1]);
    }
  }

  /** Every id of the table, and no other, ends with a rating. */
  lemma SimulateKeys(expected: (real, real) -> real, df: seq<LongRow>)
    ensures forall id :: id in Simulate(expected, df) <==> exists r :: r in df && r.id == id
  {
  }

  /** The player is the only entrant of every tournament they entered. */
  ghost predicate AlwaysAlone(df: seq<LongRow>, id: string) {
    forall r :: r in df && r.id == id ==> |RowsOfTournament(df, KeyOf(r))| == 1
  }

  lemma {:induction false} PlayTournamentsAlone(m: map<string, real>, expected: (real, real) -> real, df: seq<LongRow>, ks: seq<TournamentKey>, id: string)
    requires forall r :: r in df ==> r.id in m
    requires id in m && AlwaysAlone(df, id)
    ensures PlayTournaments(m, expected, df, ks)[id] == m[id]
  {
    if ks != [] {
      var before := PlayTournaments(m, expected, df, ks[..|ks| - 1]);
      PlayTournamentsAlone(m, expected, df, ks[..|ks| - 1], id);
      var pids := Standings(df, ks[|ks| - 1]);
      if id in pids {
        var r :| r in df && r.id == id && KeyOf(r) == ks[|ks| - 1];
        RoundRobinAlone(before, expected, pids);
      } else {
        PlayScheduleOutside(before, expected, pids, Pairs(|pids|), id);
      }
    }
  }

  /** A player who was alone in every tournament they entered keeps 1500. */
  lemma AloneKeepsInitialRating(expected: (real, real) -> real, df: seq<LongRow>, id: string)
    requires id in Ids(df) && AlwaysAlone(df, id)
    ensures Simulate(expected, df)[id] == InitialRating
  {
    PlayTournamentsAlone(InitialRatings(Ids(df)), expected, df, TournamentKeys(df), id);
  }

  // ---------------------------------------------------------------------
  // The rating table
  // ---------------------------------------------------------------------

  /** `player_ratings`, updated in place. */
  class EloTable {
    var ratings: map<string, real>
    const expected: (real, real) -> real

    constructor (ids: seq<string>, expected: (real, real) -> real)
      ensures this.expected == expected
      ensures ratings == InitialRatings(ids)
    {
      this.expected := expected;
      ratings := InitialRatings(ids);
    }

    /** `player_ratings[p1] = ...; player_ratings[p2] = ...` from `r1, r2` read first. */
    method PlayMatch(p1: string, p2: string)
      requires p1 in ratings && p2 in ratings
      modifies this
      ensures ratings == Match(old(ratings), expected, p1, p2)
    {
      var r1, r2 := ratings[p1], ratings[p2];
      ratings := ratings[p1 := CalculateElo(expected, r1, r2, 1.0)];
      ratings := ratings[p2 := CalculateElo(expected, r2, r1, 0.0)];
    }

    /** One pass of the inner loop: match `(i, j)`, leaving the rest of the row to play. */
    method PlayNext(pids: seq<string>, i: nat, j: nat, ghost goal: map<string, real>)
      requires i < j < |pids|
      requires forall x :: x in pids ==> x in ratings
      requires PlaySchedule(ratings, expected, pids, Row(i, j, |pids|)) == goal
      modifies this
      ensures forall x :: x in pids ==> x in ratings
      ensures PlaySchedule(ratings, expected, pids, Row(i, j + 1, |pids|)) == goal
    {
      ghost var before := ratings;
      PlayMatch(pids[i], pids[j]);
      PlayRowStep(before, ratings, goal, expected, pids, i, j);
    }

    /** The inner `for j in range(i + 1, len(pids))` loop: entrant `i` beats everyone below it. */
    method PlayRound(pids: seq<string>, i: nat)
      requires i < |pids|
      requires forall x :: x in pids ==> x in ratings
      modifies this
      ensures ratings == PlaySchedule(old(ratings), expected, pids, Row(i, i + 1, |pids|))
    {
      ghost var goal := PlaySchedule(ratings, expected, pids, Row(i, i + 1, |pids|));
      var j := i + 1;
      while j < |pids|
        invariant i + 1 <= j <= |pids|
        invariant forall x :: x in pids ==> x in ratings
        invariant PlaySchedule(ratings, expected, pids, Row(i, j, |pids|)) == goal
      {
        PlayNext(pids, i, j, goal);
        j := j + 1;
      }
    }

    /** One pass of the outer loop: round `i`, leaving the later rounds to play. */
    method PlayNextRound(pids: seq<string>, i: nat, ghost goal: map<string, real>)
      requires i < |pids|
      requires forall x :: x in pids ==> x in ratings
      requires PlaySchedule(ratings, expected, pids, RoundsFrom(i, |pids|)) == goal
      modifies this
      ensures forall x :: x in pids ==> x in ratings
      ensures PlaySchedule(ratings, expected, pids, RoundsFrom(i + 1, |pids|)) == goal
    {
      ghost var before := ratings;
      PlayRound(pids, i);
      PlayRoundsStep(before, ratings, goal, expected, pids, i);
    }

    /** The nested `for i` / `for j` loops over one tournament's standings. */
    method PlayTournament(pids: seq<string>)
      requires forall x :: x in pids ==> x in ratings
      modifies this
      ensures ratings == RoundRobin(old(ratings), expected, pids)
    {
      ghost var goal := RoundRobin(ratings, expected, pids);
      var i := 0;
      while i < |pids|
        invariant 0 <= i <= |pids|
        invariant forall x :: x in pids ==> x in ratings
        invariant PlaySchedule(ratings, expected, pids, RoundsFrom(i, |pids|)) == goal
      {
        PlayNextRound(pids, i, goal);
        i := i + 1;
      }
    }
  }

  /** `run_elo_simulation` up to the final rating dictionary. */
  method RunEloSimulation(df: seq<LongRow>, expected: (real, real) -> real) returns (ratings: map<string, real>)
    ensures ratings == Simulate(expected, df)
  {
    var table := new EloTable(Ids(df), expected);
    var keys := TournamentKeys(df);
    ghost var start := table.ratings;
    InitialRatingsCoverTable(df);
    var k := 0;
    while k < |keys|
      invariant 0 <= k <= |keys|
      invariant table.ratings == PlayTournaments(start, expected, df, keys[..k])
    {
      ghost var before := table.ratings;
      StandingsRated(start, expected, df, keys[..k], keys[k]);
      table.PlayTournament(Standings(df, keys[k]));
      PlayTournamentsStep(start, before, table.ratings, expected, df, keys, k);
      k := k + 1;
    }
    assert keys[..k] == keys;
    ratings := table.ratings;
  }
}

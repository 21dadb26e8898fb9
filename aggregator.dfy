/**
 * Per-team aggregation (`summarize` in ScoutingProcessor.py): group the
 * normalised rows by team number, count distinct match numbers, sum the
 * four zone counts, the endgame score and the total score, divide each sum
 * by the match count, and emit one row per team in ascending team order
 * with a fixed column order.
 */
module Aggregator {
  import opened Normalizer

  /** The six summed columns. */
  datatype Metric = AutoNear | AutoFar | TeleNear | TeleFar | EndScore | TotalScore

  /** The value a normalised row contributes to a summed column. */
  function Value(row: Row, m: Metric): int {
    match m
    case AutoNear => row.autoNear
    case AutoFar => row.autoFar
    case TeleNear => row.teleNear
    case TeleFar => row.teleFar
    case EndScore => row.endGameScore
    case TotalScore => row.totalScore
  }

  /** One row of the team summary, its fields in the exported column order. */
  datatype TeamRow = TeamRow(
    teamNumber: int,
    matches: int,
    autoNearAvg: real,
    autoFarAvg: real,
    teleNearAvg: real,
    teleFarAvg: real,
    endScoreAvg: real,
    totalScoreAvg: real,
    autoNearSum: int,
    autoFarSum: int,
    teleNearSum: int,
    teleFarSum: int,
    endScoreSum: int,
    totalScoreSum: int)
  {
    /** The `*_sum` column of a metric. */
    function Sum(m: Metric): int {
      match m
      case AutoNear => autoNearSum
      case AutoFar => autoFarSum
      case TeleNear => teleNearSum
      case TeleFar => teleFarSum
      case EndScore => endScoreSum
      case TotalScore => totalScoreSum
    }

    /** The `*_avg` column of a metric. */
    function Avg(m: Metric): real {
      match m
      case AutoNear => autoNearAvg
      case AutoFar => autoFarAvg
      case TeleNear => teleNearAvg
      case TeleFar => teleFarAvg
      case EndScore => endScoreAvg
      case TotalScore => totalScoreAvg
    }
  }

  /** The place of a metric among the six averages and among the six sums. */
  function Pos(m: Metric): (i: nat)
    ensures i < 6
  {
    match m
    case AutoNear => 0
    case AutoFar => 1
    case TeleNear => 2
    case TeleFar => 3
    case EndScore => 4
    case TotalScore => 5
  }

  /** The stem of a metric's `*_avg` and `*_sum` column names. */
  function Stem(m: Metric): string {
    match m
    case AutoNear => "auto_near"
    case AutoFar => "auto_far"
    case TeleNear => "tele_near"
    case TeleFar => "tele_far"
    case EndScore => "end_score"
    case TotalScore => "total_score"
  }

  /** The exported columns, in order. */
  const SUMMARY_COLUMNS: seq<string> := [
    "Team Number", "matches",
    "auto_near_avg", "auto_far_avg", "tele_near_avg", "tele_far_avg",
    "end_score_avg", "total_score_avg",
    "auto_near_sum", "auto_far_sum", "tele_near_sum", "tele_far_sum",
    "end_score_sum", "total_score_sum"]

  /** The column order: team number, match count, the six averages, then
      the six sums, each group in metric order. */
  lemma SummaryColumnsLayout()
    ensures |SUMMARY_COLUMNS| == 14
    ensures SUMMARY_COLUMNS[0] == "Team Number" && SUMMARY_COLUMNS[1] == "matches"
    ensures forall m :: SUMMARY_COLUMNS[2 + Pos(m)] == Stem(m) + "_avg"
    ensures forall m :: SUMMARY_COLUMNS[8 + Pos(m)] == Stem(m) + "_sum"
  {
    forall m ensures SUMMARY_COLUMNS[2 + Pos(m)] == Stem(m) + "_avg"
                  && SUMMARY_COLUMNS[8 + Pos(m)] == Stem(m) + "_sum"
    {
      match m
      case AutoNear =>
      case AutoFar =>
      case TeleNear =>
      case TeleFar =>
      case EndScore =>
      case TotalScore =>
    }
  }

  /** A summary row as exported, cell by cell under `SUMMARY_COLUMNS`: the
      team number, the match count, each metric's average at its place
      among the averages and each metric's sum at its place among the sums. */
  function Cells(t: TeamRow): (cells: seq<real>)
    ensures |cells| == |SUMMARY_COLUMNS| == 14
    ensures cells[0] == t.teamNumber as real && cells[1] == t.matches as real
    ensures forall m :: cells[2 + Pos(m)] == t.Avg(m)
    ensures forall m :: cells[8 + Pos(m)] == t.Sum(m) as real
  {
    [t.teamNumber as real, t.matches as real,
     t.autoNearAvg, t.autoFarAvg, t.teleNearAvg, t.teleFarAvg, t.endScoreAvg, t.totalScoreAvg,
     t.autoNearSum as real, t.autoFarSum as real, t.teleNearSum as real, t.teleFarSum as real,
     t.endScoreSum as real, t.totalScoreSum as real]
  }

  /** The team numbers that occur in the rows: the groups of `groupby`. */
  function Teams(rows: seq<Row>): set<int> {
    set r | r in rows :: r.teamNumber
  }

  /** The distinct match numbers of one team's rows (`nunique` counts them). */
  function MatchNumbers(rows: seq<Row>, team: int): set<int> {
    set r | r in rows && r.teamNumber == team :: r.matchNumber
  }

  /** The sum of a column over one team's rows. */
  function TeamSum(rows: seq<Row>, team: int, m: Metric): int
    decreases |rows|
  {
    if |rows| == 0 then 0
    else
      var last := rows[|rows| - 1];
      TeamSum(rows[..|rows| - 1], team, m) + (if last.teamNumber == team then Value(last, m) else 0)
  }

  /** The sum of a column over all rows. */
  function ColumnSum(rows: seq<Row>, m: Metric): int
    decreases |rows|
  {
    if |rows| == 0 then 0 else ColumnSum(rows[..|rows| - 1], m) + Value(rows[|rows| - 1], m)
  }

  /** One group of `groupby("Team Number")` as it accumulates: the match
      numbers seen and the running sums. */
  datatype Group = Group(
    matchNumbers: set<int>,
    autoNear: int,
    autoFar: int,
    teleNear: int,
    teleFar: int,
    endScore: int,
    totalScore: int)

  /** The group of a team that has no rows yet. */
  const EMPTY_GROUP: Group := Group({}, 0, 0, 0, 0, 0, 0)

  /** The group of a team, computed from all its rows at once. */
  function GroupOf(rows: seq<Row>, team: int): Group {
    Group(MatchNumbers(rows, team),
          TeamSum(rows, team, AutoNear), TeamSum(rows, team, AutoFar),
          TeamSum(rows, team, TeleNear), TeamSum(rows, team, TeleFar),
          TeamSum(rows, team, EndScore), TeamSum(rows, team, TotalScore))
  }

  /** A group after one more of the team's rows. */
  function AddRow(g: Group, r: Row): Group {
    Group(g.matchNumbers + {r.matchNumber},
          g.autoNear + r.autoNear, g.autoFar + r.autoFar,
          g.teleNear + r.teleNear, g.teleFar + r.teleFar,
          g.endScore + r.endGameScore, g.totalScore + r.totalScore)
  }

  /** The finished summary row of a group: the match count, the six sums and
      each sum divided by the match count. */
  function Finish(team: int, g: Group): (t: TeamRow)
    requires g.matchNumbers != {}
    ensures t.matches >= 1
  {
    var n := |g.matchNumbers|;
    TeamRow(team, n,
            g.autoNear as real / n as real, g.autoFar as real / n as real,
            g.teleNear as real / n as real, g.teleFar as real / n as real,
            g.endScore as real / n as real, g.totalScore as real / n as real,
            g.autoNear, g.autoFar, g.teleNear, g.teleFar, g.endScore, g.totalScore)
  }

  /** Every team that occurs has a match number, so its group is never empty. */
  lemma TeamHasMatches(rows: seq<Row>, team: int)
    requires team in Teams(rows)
    ensures MatchNumbers(rows, team) != {}
  {
    var r :| r in rows && r.teamNumber == team;
    assert r.matchNumber in MatchNumbers(rows, team);
  }

  /** The summary row of a team that occurs in the rows: `matches` is the
      number of distinct match numbers (so at least 1), each `*_sum` is the
      column summed over all of the team's rows, and each `*_avg` is that sum
      divided by `matches`. */
  function SummaryOf(rows: seq<Row>, team: int): (t: TeamRow)
    requires team in Teams(rows)
    ensures t.teamNumber == team
    ensures t.matches == |MatchNumbers(rows, team)| >= 1
    ensures forall m :: t.Sum(m) == TeamSum(rows, team, m)
    ensures forall m :: t.Avg(m) == t.Sum(m) as real / t.matches as real
  {
    TeamHasMatches(rows, team);
    var t := Finish(team, GroupOf(rows, team));
    t
  }

  /** The `Team Number` column of summary rows. */
  function TeamColumn(out: seq<TeamRow>): (ts: seq<int>)
    ensures |ts| == |out|
    ensures forall k :: 0 <= k < |out| ==> ts[k] == out[k].teamNumber
  {
    seq(|out|, k requires 0 <= k < |out| => out[k].teamNumber)
  }

  /** The numbers a list holds. */
  function Elems(ts: seq<int>): set<int> {
    set t | t in ts
  }

  /** Numbers strictly ascending (so also free of repeats). */
  predicate Increasing(ts: seq<int>) {
    forall i, j :: 0 <= i < j < |ts| ==> ts[i] < ts[j]
  }

  /** `out` is the summary of `rows`: one row per team that occurs, in
      strictly ascending team order, each that team's summary row. */
  ghost predicate IsSummaryOf(rows: seq<Row>, out: seq<TeamRow>) {
    && Elems(TeamColumn(out)) == Teams(rows)
    && Increasing(TeamColumn(out))
    && forall k :: 0 <= k < |out| ==> out[k].teamNumber in Teams(rows) && out[k] == SummaryOf(rows, out[k].teamNumber)
  }

  /** Rows of one more row: its team joins the teams. */
  lemma TeamsSnoc(rows: seq<Row>, r: Row)
    ensures Teams(rows + [r]) == Teams(rows) + {r.teamNumber}
  {
    assert forall x :: x in rows + [r] <==> x in rows || x == r;
  }

  /** One more row adds to its own team's sums and to no other's. */
  lemma TeamSumSnoc(rows: seq<Row>, r: Row, team: int, m: Metric)
    ensures TeamSum(rows + [r], team, m)
            == TeamSum(rows, team, m) + (if r.teamNumber == team then Value(r, m) else 0)
  {
    assert (rows + [r])[..|rows|] == rows;
  }

  /** One more row adds its match number to its own team's group only. */
  lemma GroupOfSnoc(rows: seq<Row>, r: Row, team: int)
    ensures GroupOf(rows + [r], team)
            == if r.teamNumber == team then AddRow(GroupOf(rows, team), r) else GroupOf(rows, team)
  {
    assert forall x :: x in rows + [r] <==> x in rows || x == r;
    forall m { TeamSumSnoc(rows, r, team, m); }
    if r.teamNumber == team {
      assert MatchNumbers(rows + [r], team) == MatchNumbers(rows, team) + {r.matchNumber};
    } else {
      assert MatchNumbers(rows + [r], team) == MatchNumbers(rows, team);
    }
  }

  /** A team without rows has the empty group. */
  lemma {:induction false} GroupOfAbsent(rows: seq<Row>, team: int)
    requires team !in Teams(rows)
    ensures GroupOf(rows, team) == EMPTY_GROUP
    decreases |rows|
  {
    if |rows| > 0 {
      var init := rows[..|rows| - 1];
      assert rows == init + [rows[|rows| - 1]];
      TeamsSnoc(init, rows[|rows| - 1]);
      GroupOfAbsent(init, team);
      GroupOfSnoc(init, rows[|rows| - 1], team);
    }
  }

  /** `x` is the least element of `s`. */
  predicate IsLeast(x: int, s: set<int>) {
    x in s && forall y :: y in s ==> x <= y
  }

  /** A non-empty set of team numbers has a least element. */
  lemma {:induction false} HasLeast(s: set<int>)
    requires s != {}
    ensures exists x :: IsLeast(x, s)
    decreases s
  {
    if forall z :: z !in s { assert false; }
    var x :| x in s;
    if s == {x} {
      assert IsLeast(x, s);
    } else {
      HasLeast(s - {x});
      var y :| IsLeast(y, s - {x});
      assert forall z :: z in s ==> z == x || z in s - {x};
      if x < y {
        assert IsLeast(x, s);
      } else {
        assert IsLeast(y, s);
      }
    }
  }

  /** The `groupby` half of `summarize`: one pass over the rows builds a
      map from each team number to that team's group. */
  method GroupByTeam(rows: seq<Row>) returns (groups: map<int, Group>)
    ensures groups.Keys == Teams(rows)
    ensures forall t :: t in groups ==> groups[t] == GroupOf(rows, t)
  {
    groups := map[];
    var i := 0;
    while i < |rows|
      invariant 0 <= i <= |rows|
      invariant groups.Keys == Teams(rows[..i])
      invariant forall t :: t in groups ==> groups[t] == GroupOf(rows[..i], t)
    {
      var r := rows[i];
      assert rows[..i + 1] == rows[..i] + [r];
      TeamsSnoc(rows[..i], r);
      var current := if r.teamNumber in groups then groups[r.teamNumber] else EMPTY_GROUP;
      if r.teamNumber !in groups {
        GroupOfAbsent(rows[..i], r.teamNumber);
      }
      forall t | t in groups || t == r.teamNumber
        ensures GroupOf(rows[..i + 1], t)
                == if r.teamNumber == t then AddRow(GroupOf(rows[..i], t), r) else GroupOf(rows[..i], t)
      {
        GroupOfSnoc(rows[..i], r, t);
      }
      groups := groups[r.teamNumber := AddRow(current, r)];
      i := i + 1;
    }
    assert rows[..i] == rows;
  }

  /** The group keys least first, as `sort_values("Team Number")` orders
      the aggregated rows. */
  method SortedTeams(keys: set<int>) returns (ts: seq<int>)
    ensures Elems(ts) == keys
    ensures Increasing(ts)
  {
    ts := [];
    var remaining := keys;
    while remaining != {}
      invariant remaining <= keys
      invariant Elems(ts) + remaining == keys
      invariant Increasing(ts)
      invariant forall k, u :: 0 <= k < |ts| && u in remaining ==> ts[k] < u
      decreases remaining
    {
      HasLeast(remaining);
      var team :| IsLeast(team, remaining);
      assert Elems(ts + [team]) == Elems(ts) + {team} by {
        assert forall x :: x in ts + [team] <==> x in ts || x == team;
      }
      ts := ts + [team];
      remaining := remaining - {team};
    }
  }

  /** `summarize`: group the rows by team, then emit the finished groups
      in ascending team order. */
  method Summarize(rows: seq<Row>) returns (out: seq<TeamRow>)
    ensures IsSummaryOf(rows, out)
  {
    var groups := GroupByTeam(rows);
    forall t | t in groups ensures groups[t].matchNumbers != {} {
      TeamHasMatches(rows, t);
    }
    var teams := SortedTeams(groups.Keys);
    out := seq(|teams|, k requires 0 <= k < |teams| => Finish(teams[k], groups[teams[k]]));
    assert TeamColumn(out) == teams;
  }

  /** An empty list is the only one with no elements. */
  lemma ElemsEmpty(ts: seq<int>)
    ensures Elems(ts) == {} <==> |ts| == 0
  {
    if |ts| > 0 { assert ts[0] in Elems(ts); }
  }

  /** Strictly ascending sequences with the same elements are equal. */
  lemma {:induction false} IncreasingUnique(a: seq<int>, b: seq<int>)
    requires Increasing(a) && Increasing(b)
    requires Elems(a) == Elems(b)
    ensures a == b
    decreases |a|
  {
    ElemsEmpty(a);
    ElemsEmpty(b);
    if |a| > 0 {
      assert a[0] in Elems(a);
      assert b[0] in Elems(b);
      assert a[0] == b[0];
      assert Elems(a[1..]) == Elems(a) - {a[0]} by {
        assert forall x :: x in a <==> x == a[0] || x in a[1..];
      }
      assert Elems(b[1..]) == Elems(b) - {b[0]} by {
        assert forall x :: x in b <==> x == b[0] || x in b[1..];
      }
      IncreasingUnique(a[1..], b[1..]);
      assert a == [a[0]] + a[1..] && b == [b[0]] + b[1..];
    }
  }

  /** The summary is determined by the rows: re-running `summarize` on the
      same rows gives the same table. */
  lemma SummaryUnique(rows: seq<Row>, a: seq<TeamRow>, b: seq<TeamRow>)
    requires IsSummaryOf(rows, a) && IsSummaryOf(rows, b)
    ensures a == b
  {
    IncreasingUnique(TeamColumn(a), TeamColumn(b));
    assert |a| == |b|;
    forall k | 0 <= k < |a| ensures a[k] == b[k] {
      assert a[k].teamNumber == TeamColumn(a)[k] == TeamColumn(b)[k] == b[k].teamNumber;
    }
  }

  /** A list free of repeats. */
  predicate Distinct<T(==)>(xs: seq<T>) {
    forall i, j :: 0 <= i < j < |xs| ==> xs[i] != xs[j]
  }

  /** A column summed team by team over a list of team numbers. */
  function SumOverTeams(ts: seq<int>, rows: seq<Row>, m: Metric): int
    decreases |ts|
  {
    if |ts| == 0 then 0 else TeamSum(rows, ts[0], m) + SumOverTeams(ts[1..], rows, m)
  }

  /** With no rows every team's sum is 0. */
  lemma {:induction false} SumOverTeamsNoRows(ts: seq<int>, m: Metric)
    ensures SumOverTeams(ts, [], m) == 0
    decreases |ts|
  {
    if |ts| > 0 { SumOverTeamsNoRows(ts[1..], m); }
  }

  /** One more row adds its value once, to the team it belongs to. */
  lemma {:induction false} SumOverTeamsSnoc(ts: seq<int>, rows: seq<Row>, r: Row, m: Metric)
    requires Distinct(ts)
    ensures SumOverTeams(ts, rows + [r], m)
            == SumOverTeams(ts, rows, m) + (if r.teamNumber in ts then Value(r, m) else 0)
    decreases |ts|
  {
    if |ts| > 0 {
      TeamSumSnoc(rows, r, ts[0], m);
      assert Distinct(ts[1..]);
      SumOverTeamsSnoc(ts[1..], rows, r, m);
      assert r.teamNumber in ts <==> r.teamNumber == ts[0] || r.teamNumber in ts[1..];
      if r.teamNumber == ts[0] {
        assert r.teamNumber !in ts[1..];
      }
    }
  }

  /** Summing team by team over every team loses and repeats nothing. */
  lemma {:induction false} SumOverTeamsCovers(ts: seq<int>, rows: seq<Row>, m: Metric)
    requires Distinct(ts)
    requires Teams(rows) <= Elems(ts)
    ensures SumOverTeams(ts, rows, m) == ColumnSum(rows, m)
    decreases |rows|
  {
    if |rows| == 0 {
      SumOverTeamsNoRows(ts, m);
    } else {
      var init, last := rows[..|rows| - 1], rows[|rows| - 1];
      assert rows == init + [last];
      TeamsSnoc(init, last);
      SumOverTeamsCovers(ts, init, m);
      SumOverTeamsSnoc(ts, init, last, m);
    }
  }

  /** A `*_sum` column added up over the summary rows. */
  function SummarySum(out: seq<TeamRow>, m: Metric): int
    decreases |out|
  {
    if |out| == 0 then 0 else out[0].Sum(m) + SummarySum(out[1..], m)
  }

  /** Adding up summary rows is adding up their teams' sums. */
  lemma {:induction false} SummarySumByTeam(rows: seq<Row>, out: seq<TeamRow>, m: Metric)
    requires forall k :: 0 <= k < |out| ==> out[k].Sum(m) == TeamSum(rows, out[k].teamNumber, m)
    ensures SummarySum(out, m) == SumOverTeams(TeamColumn(out), rows, m)
    decreases |out|
  {
    if |out| > 0 {
      assert TeamColumn(out)[1..] == TeamColumn(out[1..]);
      SummarySumByTeam(rows, out[1..], m);
    }
  }

  /** Conservation across the group-by: every `*_sum` column, added up over
      all teams, equals that column added up over all input rows. */
  lemma SummaryConserves(rows: seq<Row>, out: seq<TeamRow>, m: Metric)
    requires IsSummaryOf(rows, out)
    ensures SummarySum(out, m) == ColumnSum(rows, m)
  {
    SummarySumByTeam(rows, out, m);
    SumOverTeamsCovers(TeamColumn(out), rows, m);
  }

  /** Per team, the summed total is three points per summed piece plus the
      summed endgame score, as it is row by row. */
  lemma {:induction false} TeamTotalSplits(rows: seq<Row>, team: int)
    requires forall i :: 0 <= i < |rows| ==> Scored(rows[i])
    ensures TeamSum(rows, team, TotalScore)
            == SCORE_PER_PIECE * (TeamSum(rows, team, AutoNear) + TeamSum(rows, team, AutoFar)
                                  + TeamSum(rows, team, TeleNear) + TeamSum(rows, team, TeleFar))
               + TeamSum(rows, team, EndScore)
    decreases |rows|
  {
    if |rows| > 0 {
      TeamTotalSplits(rows[..|rows| - 1], team);
      assert Scored(rows[|rows| - 1]);
    }
  }

  /** On normalised rows each summary row keeps the scoring rule:
      `total_score_sum = 3 * (the four zone sums) + end_score_sum`. */
  lemma SummaryTotalSplits(rows: seq<Row>, out: seq<TeamRow>)
    requires forall i :: 0 <= i < |rows| ==> Scored(rows[i])
    requires IsSummaryOf(rows, out)
    ensures forall k :: 0 <= k < |out| ==>
              out[k].totalScoreSum
              == SCORE_PER_PIECE * (out[k].autoNearSum + out[k].autoFarSum + out[k].teleNearSum + out[k].teleFarSum)
                 + out[k].endScoreSum
  {
    forall k | 0 <= k < |out|
      ensures out[k].totalScoreSum
              == SCORE_PER_PIECE * (out[k].autoNearSum + out[k].autoFarSum + out[k].teleNearSum + out[k].teleFarSum)
                 + out[k].endScoreSum
    {
      TeamTotalSplits(rows, out[k].teamNumber);
      assert out[k].totalScoreSum == out[k].Sum(TotalScore);
      assert out[k].autoNearSum == out[k].Sum(AutoNear) && out[k].autoFarSum == out[k].Sum(AutoFar);
      assert out[k].teleNearSum == out[k].Sum(TeleNear) && out[k].teleFarSum == out[k].Sum(TeleFar);
      assert out[k].endScoreSum == out[k].Sum(EndScore);
    }
  }

  /** One more row of a team adds its match number to that team's set. */
  lemma MatchNumbersSnoc(rows: seq<Row>, r: Row)
    ensures MatchNumbers(rows + [r], r.teamNumber) == MatchNumbers(rows, r.teamNumber) + {r.matchNumber}
  {
    assert forall x :: x in rows + [r] <==> x in rows || x == r;
  }

  /** Another submission for a team already present adds fully into every
      `*_sum` of that team, even when it repeats a match already scouted. */
  lemma ResubmissionSums(rows: seq<Row>, r: Row, m: Metric)
    requires r.teamNumber in Teams(rows)
    ensures r.teamNumber in Teams(rows + [r])
    ensures SummaryOf(rows + [r], r.teamNumber).Sum(m) == SummaryOf(rows, r.teamNumber).Sum(m) + Value(r, m)
  {
    TeamsSnoc(rows, r);
    TeamSumSnoc(rows, r, r.teamNumber, m);
  }

  /** `matches` counts distinct match numbers: a submission repeating a
      (team, match) pair already present leaves it unchanged, and one for a
      new match of the team raises it by one. */
  lemma ResubmissionMatches(rows: seq<Row>, r: Row)
    requires r.teamNumber in Teams(rows)
    ensures r.teamNumber in Teams(rows + [r])
    ensures r.matchNumber in MatchNumbers(rows, r.teamNumber) ==>
              SummaryOf(rows + [r], r.teamNumber).matches == SummaryOf(rows, r.teamNumber).matches
    ensures r.matchNumber !in MatchNumbers(rows, r.teamNumber) ==>
              SummaryOf(rows + [r], r.teamNumber).matches == SummaryOf(rows, r.teamNumber).matches + 1
  {
    TeamsSnoc(rows, r);
    MatchNumbersSnoc(rows, r);
  }

  /** Two submissions for team 100, for matches 1 and 2, scoring 19 and 23
      (the rows of `CommaListRowExample` and `PlainRowExample`): the team
      played 2 matches, totalling 42 points, 21 per match. */
  lemma TwoMatchExample(r0: Row, r1: Row)
    requires r0.teamNumber == 100 && r0.matchNumber == 1 && r0.totalScore == 19
    requires r1.teamNumber == 100 && r1.matchNumber == 2 && r1.totalScore == 23
    ensures 100 in Teams([r0, r1])
    ensures SummaryOf([r0, r1], 100).matches == 2
    ensures SummaryOf([r0, r1], 100).totalScoreSum == 42
    ensures SummaryOf([r0, r1], 100).totalScoreAvg == 21.0
  {
    var rows := [r0, r1];
    assert rows[..1] == [r0] && [r0][..0] == [];
    assert TeamSum([], 100, TotalScore) == 0;
    assert TeamSum([r0], 100, TotalScore) == 19;
    assert TeamSum(rows, 100, TotalScore) == 42;
    assert MatchNumbers(rows, 100) == {1, 2} by {
      assert forall x :: x in rows <==> x == r0 || x == r1;
    }
    assert r0 in rows;
  }
}

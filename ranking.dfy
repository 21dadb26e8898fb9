/**
 * The ranking view of DataVisualizer.py: `load_summary` (sort the team
 * summary by `total_score_avg`, best first, and number the rows as
 * `Rank`), the Rank-if-absent step of `main`, and the choice and renaming
 * of the columns shown.
 *
 * A table is a list of column names and a list of rows of numbers, each
 * row holding one cell per column.
 */
module Ranking {
  import opened Aggregator

  /** A table read from a CSV file. */
  datatype Frame = Frame(columns: seq<string>, rows: seq<seq<real>>)

  /** Why a step fails: `total_score_avg` is missing (the `ValueError` of
      `load_summary`, or the `KeyError` of sorting on it), `Rank` already
      exists (`df.insert` refuses a duplicate column), or no display column
      is present. */
  datatype Failure = MissingTotal | RankExists | NoValidColumns

  datatype Result<T> = Ok(value: T) | Err(error: Failure)

  const RANK: string := "Rank"
  const TOTAL: string := "total_score_avg"

  /** Every row has exactly one cell per column. */
  predicate Rectangular(f: Frame) {
    forall k :: 0 <= k < |f.rows| ==> |f.rows[k]| == |f.columns|
  }

  /** A table as `read_csv` gives it: distinct column names, one cell per
      column in every row. */
  predicate WellFormed(f: Frame) {
    Distinct(f.columns) && Rectangular(f)
  }

  /** The position of a column. */
  function IndexOf(names: seq<string>, name: string): (i: nat)
    requires name in names
    ensures i < |names| && names[i] == name
    ensures forall j :: 0 <= j < i ==> names[j] != name
  {
    if names[0] == name then 0 else 1 + IndexOf(names[1..], name)
  }

  /** Every row has a cell at index `c`. */
  predicate Wide(rows: seq<seq<real>>, c: nat) {
    forall k :: 0 <= k < |rows| ==> c < |rows[k]|
  }

  /** Rows ordered best first on the cell at index `c`. */
  predicate NonIncreasing(rows: seq<seq<real>>, c: nat) {
    Wide(rows, c) && forall i, j :: 0 <= i < j < |rows| ==> rows[j][c] <= rows[i][c]
  }

  /** A row in front of rows ordered best first, and not below the first
      of them, keeps them ordered. */
  lemma ConsNonIncreasing(x: seq<real>, rows: seq<seq<real>>, c: nat)
    requires c < |x| && NonIncreasing(rows, c)
    requires |rows| == 0 || rows[0][c] <= x[c]
    ensures NonIncreasing([x] + rows, c)
  {
    var r := [x] + rows;
    forall i, j | 0 <= i < j < |r| ensures r[j][c] <= r[i][c] {
      if i > 0 {
        assert r[i] == rows[i - 1] && r[j] == rows[j - 1];
      } else {
        assert r[j] == rows[j - 1];
      }
    }
  }

  /** One row put into rows already ordered best first, before the first row
      it is not below. */
  function Insert(x: seq<real>, rows: seq<seq<real>>, c: nat): (r: seq<seq<real>>)
    requires c < |x| && NonIncreasing(rows, c)
    ensures multiset(r) == multiset(rows) + multiset{x}
    ensures NonIncreasing(r, c)
    ensures |r| == |rows| + 1 && (r[0] == x || (|rows| > 0 && r[0] == rows[0]))
    decreases |rows|
  {
    if |rows| == 0 || rows[0][c] <= x[c] then
      ConsNonIncreasing(x, rows, c);
      [x] + rows
    else
      var tail := Insert(x, rows[1..], c);
      assert rows == [rows[0]] + rows[1..];
      ConsNonIncreasing(rows[0], tail, c);
      [rows[0]] + tail
  }

  /** `sort_values(col, ascending=False)`: the same rows, best first on the
      cell at index `c`. */
  function SortDescending(rows: seq<seq<real>>, c: nat): (r: seq<seq<real>>)
    requires Wide(rows, c)
    ensures multiset(r) == multiset(rows)
    ensures NonIncreasing(r, c)
    decreases |rows|
  {
    if |rows| == 0 then []
    else
      assert rows == [rows[0]] + rows[1..];
      Insert(rows[0], SortDescending(rows[1..], c), c)
  }

  /** A permutation keeps the length. */
  lemma SameLength(a: seq<seq<real>>, b: seq<seq<real>>)
    requires multiset(a) == multiset(b)
    ensures |a| == |b|
  {
    assert |multiset(a)| == |a| && |multiset(b)| == |b|;
  }

  /** Rows of a rectangular table are wide enough for each of its columns. */
  lemma RectangularWide(f: Frame, c: nat)
    requires Rectangular(f) && c < |f.columns|
    ensures Wide(f.rows, c)
  {
  }

  /** `df.insert(0, "Rank", df.index + 1)`: the row's position, counted from
      1, in front of every row. */
  function NumberRows(rows: seq<seq<real>>): (r: seq<seq<real>>)
    ensures |r| == |rows|
    ensures forall i :: 0 <= i < |r| ==> |r[i]| >= 1 && r[i][0] == (i + 1) as real && r[i][1..] == rows[i]
  {
    seq(|rows|, i requires 0 <= i < |rows| => [(i + 1) as real] + rows[i])
  }

  /** `g` is `f` ranked: `Rank` in front of the columns, the rows of `f`
      reordered best first on `total_score_avg`, and the rank of each row
      its position counted from 1. */
  ghost predicate RankedFrom(f: Frame, g: Frame)
    requires TOTAL in f.columns
  {
    var c := IndexOf(f.columns, TOTAL);
    && g.columns == [RANK] + f.columns
    && |g.rows| == |f.rows|
    && (forall i :: 0 <= i < |g.rows| ==> |g.rows[i]| >= 1 && g.rows[i][0] == (i + 1) as real)
    && (exists sorted :: && multiset(sorted) == multiset(f.rows)
                         && NonIncreasing(sorted, c)
                         && g.rows == NumberRows(sorted))
  }

  /** `load_summary` on the table read from the CSV file: fail without
      `total_score_avg`, sort best first on it, then insert `Rank` as the
      first column (which fails when a `Rank` column is already there). */
  function LoadSummary(f: Frame): (r: Result<Frame>)
    requires WellFormed(f)
    ensures r == Err(MissingTotal) <==> TOTAL !in f.columns
    ensures TOTAL in f.columns && RANK in f.columns ==> r == Err(RankExists)
    ensures r.Ok? <==> TOTAL in f.columns && RANK !in f.columns
    ensures r.Ok? ==> WellFormed(r.value) && RankedFrom(f, r.value)
  {
    if TOTAL !in f.columns then Err(MissingTotal)
    else
      var c := IndexOf(f.columns, TOTAL);
      RectangularWide(f, c);
      var sorted := SortDescending(f.rows, c);
      if RANK in f.columns then Err(RankExists)
      else
        SameLength(sorted, f.rows);
        var g := Frame([RANK] + f.columns, NumberRows(sorted));
        assert Rectangular(g) by {
          forall k | 0 <= k < |g.rows| ensures |g.rows[k]| == |g.columns| {
            assert sorted[k] in multiset(f.rows);
          }
        }
        Ok(g)
  }

  /** Rank 1 holds a best `total_score_avg`: no row of the input table has
      a higher one. */
  lemma RankOneIsBest(f: Frame)
    requires WellFormed(f)
    requires LoadSummary(f).Ok?
    ensures var g, c := LoadSummary(f).value, IndexOf(f.columns, TOTAL);
            forall x :: x in f.rows ==> |g.rows| >= 1 && c + 1 < |g.rows[0]| && x[c] <= g.rows[0][c + 1]
  {
    var g, c := LoadSummary(f).value, IndexOf(f.columns, TOTAL);
    var sorted :| && multiset(sorted) == multiset(f.rows)
                  && NonIncreasing(sorted, c)
                  && g.rows == NumberRows(sorted);
    forall x | x in f.rows ensures |g.rows| >= 1 && c + 1 < |g.rows[0]| && x[c] <= g.rows[0][c + 1] {
      assert x in multiset(sorted);
      var j :| 0 <= j < |sorted| && sorted[j] == x;
      assert g.rows[0][1..] == sorted[0];
    }
  }

  /** The Rank-if-absent step of `main`: a table that already has `Rank` is
      kept as it is; otherwise it is ranked as `load_summary` ranks it
      (without `total_score_avg` the sort fails first). */
  function EnsureRank(f: Frame): (r: Result<Frame>)
    requires WellFormed(f)
    ensures RANK in f.columns ==> r == Ok(f)
    ensures RANK !in f.columns ==> r == LoadSummary(f)
    ensures r.Ok? ==> RANK in r.value.columns && WellFormed(r.value)
    ensures r.Err? ==> r.error == MissingTotal
  {
    if RANK in f.columns then Ok(f) else LoadSummary(f)
  }

  /** A table from `load_summary` goes through the Rank-if-absent step
      untouched: ranking is never applied twice. */
  lemma EnsureRankAfterLoad(f: Frame)
    requires WellFormed(f)
    requires LoadSummary(f).Ok?
    ensures EnsureRank(LoadSummary(f).value) == LoadSummary(f)
  {
    assert LoadSummary(f).value.columns[0] == RANK;
  }

  /** The columns shown, in order. */
  const DISPLAY_COLS: seq<string> := [
    "Rank", "Team Number", "matches",
    "auto_near_avg", "auto_far_avg", "tele_near_avg", "tele_far_avg",
    "auto_cycles_avg", "tele_cycles_avg", "total_cycles_avg",
    "auto_hit_rate", "tele_hit_rate",
    "end_score_avg", "total_score_avg"]

  /** `[c for c in wanted if c in columns]`. */
  function Keep(wanted: seq<string>, columns: seq<string>): (kept: seq<string>)
    ensures |kept| <= |wanted|
    ensures forall x :: x in kept <==> x in wanted && x in columns
    decreases |wanted|
  {
    if |wanted| == 0 then []
    else if wanted[0] in columns then [wanted[0]] + Keep(wanted[1..], columns)
    else Keep(wanted[1..], columns)
  }

  /** `[c for c in wanted if c not in columns]`. */
  function Drop(wanted: seq<string>, columns: seq<string>): (dropped: seq<string>)
    ensures |dropped| <= |wanted|
    ensures forall x :: x in dropped <==> x in wanted && x !in columns
    decreases |wanted|
  {
    if |wanted| == 0 then []
    else if wanted[0] !in columns then [wanted[0]] + Drop(wanted[1..], columns)
    else Drop(wanted[1..], columns)
  }

  /** `xs` is `ys` with some elements left out, the rest in their order. */
  predicate Subsequence(xs: seq<string>, ys: seq<string>)
    decreases |ys|
  {
    || |xs| == 0
    || (&& |ys| > 0
        && ((xs[0] == ys[0] && Subsequence(xs[1..], ys[1..])) || Subsequence(xs, ys[1..])))
  }

  /** Together the kept and the dropped names hold each wanted name as
      often as it is wanted. */
  lemma {:induction false} KeepDropMultiset(wanted: seq<string>, columns: seq<string>)
    ensures multiset(Keep(wanted, columns)) + multiset(Drop(wanted, columns)) == multiset(wanted)
    decreases |wanted|
  {
    if |wanted| > 0 {
      KeepDropMultiset(wanted[1..], columns);
      assert wanted == [wanted[0]] + wanted[1..];
    }
  }

  /** The kept names are in the wanted order. */
  lemma {:induction false} KeepInOrder(wanted: seq<string>, columns: seq<string>)
    ensures Subsequence(Keep(wanted, columns), wanted)
    decreases |wanted|
  {
    if |wanted| > 0 {
      KeepInOrder(wanted[1..], columns);
      var k := Keep(wanted[1..], columns);
      if wanted[0] in columns {
        assert ([wanted[0]] + k)[1..] == k;
      }
    }
  }

  /** The dropped names are in the wanted order. */
  lemma {:induction false} DropInOrder(wanted: seq<string>, columns: seq<string>)
    ensures Subsequence(Drop(wanted, columns), wanted)
    decreases |wanted|
  {
    if |wanted| > 0 {
      DropInOrder(wanted[1..], columns);
      var d := Drop(wanted[1..], columns);
      if wanted[0] !in columns {
        assert ([wanted[0]] + d)[1..] == d;
      }
    }
  }

  /** The kept and the dropped names split the wanted list between them:
      together they hold each wanted name as often as it is wanted, and
      each keeps the wanted order. */
  lemma KeepDropPartition(wanted: seq<string>, columns: seq<string>)
    ensures multiset(Keep(wanted, columns)) + multiset(Drop(wanted, columns)) == multiset(wanted)
    ensures |Keep(wanted, columns)| + |Drop(wanted, columns)| == |wanted|
    ensures Subsequence(Keep(wanted, columns), wanted)
    ensures Subsequence(Drop(wanted, columns), wanted)
  {
    KeepDropMultiset(wanted, columns);
    KeepInOrder(wanted, columns);
    DropInOrder(wanted, columns);
    var k, d := Keep(wanted, columns), Drop(wanted, columns);
    assert |multiset(k)| == |k| && |multiset(d)| == |d| && |multiset(wanted)| == |wanted|;
  }

  /** Keeping some of a list free of repeats leaves it free of repeats. */
  lemma {:induction false} KeepDistinct(wanted: seq<string>, columns: seq<string>)
    requires Distinct(wanted)
    ensures Distinct(Keep(wanted, columns))
    decreases |wanted|
  {
    if |wanted| > 0 {
      assert Distinct(wanted[1..]);
      KeepDistinct(wanted[1..], columns);
      assert wanted[0] !in wanted[1..];
    }
  }

  /** `available_cols`: the display columns present, in display order. */
  function Available(columns: seq<string>): (available: seq<string>)
    ensures forall x :: x in available <==> x in DISPLAY_COLS && x in columns
  {
    Keep(DISPLAY_COLS, columns)
  }

  /** `missing`: the display columns absent, in display order. */
  function Missing(columns: seq<string>): (missing: seq<string>)
    ensures forall x :: x in missing <==> x in DISPLAY_COLS && x !in columns
  {
    Drop(DISPLAY_COLS, columns)
  }

  /** The available and the missing columns partition the fourteen display
      columns, each in display order. */
  lemma AvailableMissingPartition(columns: seq<string>)
    ensures |DISPLAY_COLS| == 14
    ensures |Available(columns)| + |Missing(columns)| == 14
    ensures multiset(Available(columns)) + multiset(Missing(columns)) == multiset(DISPLAY_COLS)
    ensures Subsequence(Available(columns), DISPLAY_COLS) && Subsequence(Missing(columns), DISPLAY_COLS)
  {
    KeepDropPartition(DISPLAY_COLS, columns);
  }

  /** The display headers, keyed by the column they rename. */
  const RENAME_MAP: map<string, string> := map[
    "Team Number" := "Team",
    "matches" := "Played",
    "auto_near_avg" := "Auto Near AVG",
    "auto_far_avg" := "Auto Far AVG",
    "tele_near_avg" := "Tele Near AVG",
    "tele_far_avg" := "Tele Far AVG",
    "auto_cycles_avg" := "Auto Cycles AVG",
    "tele_cycles_avg" := "Tele Cycles AVG",
    "total_cycles_avg" := "Total Cycles AVG",
    "auto_hit_rate" := "Auto Hit Rate",
    "tele_hit_rate" := "Tele Hit Rate",
    "end_score_avg" := "End AVG",
    "total_score_avg" := "Total AVG"]

  /** `df[names]`: the named columns, in the order named, of every row. */
  function Select(f: Frame, names: seq<string>): (g: Frame)
    requires WellFormed(f)
    requires forall n :: n in names ==> n in f.columns
    ensures g.columns == names && |g.rows| == |f.rows|
    ensures forall i :: 0 <= i < |g.rows| ==> |g.rows[i]| == |names|
    ensures forall i, k :: 0 <= i < |g.rows| && 0 <= k < |names| ==>
              g.rows[i][k] == f.rows[i][IndexOf(f.columns, names[k])]
  {
    Frame(names, seq(|f.rows|, i requires 0 <= i < |f.rows| =>
                   seq(|names|, k requires 0 <= k < |names| => f.rows[i][IndexOf(f.columns, names[k])])))
  }

  /** `{k: v for k, v in rename_map.items() if k in columns}`. */
  function PresentRenames(columns: seq<string>): (renames: map<string, string>)
    ensures forall k :: k in renames <==> k in RENAME_MAP && k in columns
    ensures forall k :: k in renames ==> renames[k] == RENAME_MAP[k]
  {
    map k | k in RENAME_MAP && k in columns :: RENAME_MAP[k]
  }

  /** `rename(columns=renames)`: each column named by a key takes its new
      name, the others keep theirs. */
  function Rename(columns: seq<string>, renames: map<string, string>): (r: seq<string>)
    ensures |r| == |columns|
  {
    seq(|columns|, i requires 0 <= i < |columns| =>
          if columns[i] in renames then renames[columns[i]] else columns[i])
  }

  /** The display headers of the selected columns. */
  function DisplayHeaders(columns: seq<string>): (headers: seq<string>)
    ensures |headers| == |columns|
  {
    Rename(columns, PresentRenames(columns))
  }

  /** Renaming touches only what is there: each header is the column's
      entry in the rename table when it has one and the column's own name
      otherwise, and restricting the table to the present columns changes
      nothing. */
  lemma DisplayHeadersRenameOnlyPresent(columns: seq<string>)
    ensures forall i :: 0 <= i < |columns| && columns[i] in RENAME_MAP ==>
              DisplayHeaders(columns)[i] == RENAME_MAP[columns[i]]
    ensures forall i :: 0 <= i < |columns| && columns[i] !in RENAME_MAP ==>
              DisplayHeaders(columns)[i] == columns[i]
    ensures DisplayHeaders(columns) == Rename(columns, RENAME_MAP)
  {
  }

  /** The rename table read backwards, from header to column. It is spelled
      out so that the verifier can check each header against one entry
      instead of comparing all pairs of the thirteen headers; the lemma
      below ties it to `RENAME_MAP` entry by entry. */
  ghost const HEADER_SOURCE: map<string, string> := map[
    "Team" := "Team Number",
    "Played" := "matches",
    "Auto Near AVG" := "auto_near_avg",
    "Auto Far AVG" := "auto_far_avg",
    "Tele Near AVG" := "tele_near_avg",
    "Tele Far AVG" := "tele_far_avg",
    "Auto Cycles AVG" := "auto_cycles_avg",
    "Tele Cycles AVG" := "tele_cycles_avg",
    "Total Cycles AVG" := "total_cycles_avg",
    "Auto Hit Rate" := "auto_hit_rate",
    "Tele Hit Rate" := "tele_hit_rate",
    "End AVG" := "end_score_avg",
    "Total AVG" := "total_score_avg"]

  /** Every header leads back to the one column it renames. */
  lemma RenameMapInvertible()
    ensures forall a :: a in RENAME_MAP ==> RENAME_MAP[a] in HEADER_SOURCE && HEADER_SOURCE[RENAME_MAP[a]] == a
  {
  }

  /** No two display columns get the same header. */
  lemma RenameMapInjective()
    ensures forall a, b :: a in RENAME_MAP && b in RENAME_MAP && a != b ==> RENAME_MAP[a] != RENAME_MAP[b]
  {
    RenameMapInvertible();
  }

  /** No header is itself the name of a display column. */
  lemma HeadersAreNew()
    ensures forall a :: a in RENAME_MAP ==> RENAME_MAP[a] !in DISPLAY_COLS
  {
    RenameMapInvertible();
  }

  /** Distinct display columns keep distinct headers, so renaming keeps the
      number and order of the columns and loses none. */
  lemma DisplayHeadersDistinct(columns: seq<string>)
    requires Distinct(columns)
    requires forall c :: c in columns ==> c in DISPLAY_COLS
    ensures Distinct(DisplayHeaders(columns))
  {
    RenameMapInjective();
    HeadersAreNew();
    DisplayHeadersRenameOnlyPresent(columns);
  }

  /** The display columns are free of repeats. */
  lemma DisplayColsDistinct()
    ensures Distinct(DISPLAY_COLS)
  {
  }

  /** A ranked table always shows its `Rank` column, first, under its own
      name. */
  lemma RankShownFirst(columns: seq<string>)
    requires RANK in columns
    ensures |Available(columns)| > 0 && Available(columns)[0] == RANK
    ensures DisplayHeaders(Available(columns))[0] == RANK
  {
    assert DISPLAY_COLS[0] == RANK;
    assert RANK !in RENAME_MAP;
    DisplayHeadersRenameOnlyPresent(Available(columns));
  }

  /** What `main` shows: the table under its display headers, and the
      display columns it warns are missing. */
  datatype View = View(table: Frame, missing: seq<string>)

  /** `main` from the Rank-if-absent step to the renamed table: rank the
      table unless it has `Rank`, keep the display columns present (in
      display order) and report the others, then rename the kept columns.
      Once a table has `Rank` some display column is always present, so the
      "No valid columns" error cannot occur: the only failure is a table
      with neither `Rank` nor `total_score_avg`. */
  method Display(f: Frame) returns (r: Result<View>)
    requires WellFormed(f)
    ensures r.Err? <==> RANK !in f.columns && TOTAL !in f.columns
    ensures r.Err? ==> r.error == MissingTotal
    ensures r.Ok? ==> EnsureRank(f).Ok?
    ensures r.Ok? ==>
              var ranked := EnsureRank(f).value;
              && r.value.missing == Missing(ranked.columns)
              && r.value.table.columns == DisplayHeaders(Available(ranked.columns))
              && r.value.table.rows == Select(ranked, Available(ranked.columns)).rows
              && |r.value.table.rows| == |f.rows|
              && |r.value.table.columns| + |r.value.missing| == |DISPLAY_COLS|
              && r.value.table.columns[0] == RANK
              && Distinct(r.value.table.columns)
  {
    var ranked := EnsureRank(f);
    if ranked.Err? {
      return Err(ranked.error);
    }
    var df := ranked.value;
    var available := Available(df.columns);
    var missing := Missing(df.columns);
    AvailableMissingPartition(df.columns);
    RankShownFirst(df.columns);
    if |available| == 0 {
      return Err(NoValidColumns);
    }
    var display := Select(df, available);
    DisplayColsDistinct();
    KeepDistinct(DISPLAY_COLS, df.columns);
    DisplayHeadersDistinct(available);
    display := display.(columns := DisplayHeaders(display.columns));
    r := Ok(View(display, missing));
  }

  /** The table `summarize` exports, as `read_csv` reads it back. */
  function SummaryFrame(out: seq<TeamRow>): (f: Frame)
    ensures WellFormed(f)
    ensures f.columns == SUMMARY_COLUMNS && |f.rows| == |out|
    ensures forall k :: 0 <= k < |out| ==> f.rows[k] == Cells(out[k])
  {
    assert Distinct(SUMMARY_COLUMNS);
    Frame(SUMMARY_COLUMNS, seq(|out|, k requires 0 <= k < |out| => Cells(out[k])))
  }

  /** An exported summary always loads: it has `total_score_avg` and no
      `Rank`, so `load_summary` ranks it. */
  lemma SummaryLoads(out: seq<TeamRow>)
    ensures LoadSummary(SummaryFrame(out)).Ok?
  {
    assert SUMMARY_COLUMNS[7] == TOTAL;
    assert RANK !in SUMMARY_COLUMNS;
  }
}

/** The profiler's duplicate and missing counts, before and after cleaning. */
module Profiling {
  import opened Tables
  import opened Text
  import opened CleaningRules
  import opened Cleaning

  function StripRow(row: Row): (r: Row)
    ensures |r| == |row| && forall j :: 0 <= j < |row| ==> r[j] == Strip(row[j])
  {
    seq(|row|, j requires 0 <= j < |row| => Strip(row[j]))
  }

  function StripRows(rows: seq<Row>): (r: seq<Row>)
    ensures |r| == |rows| && forall i :: 0 <= i < |rows| ==> r[i] == StripRow(rows[i])
  {
    seq(|rows|, i requires 0 <= i < |rows| => StripRow(rows[i]))
  }

  /** `duplicate_row_count`: rows are compared after stripping each cell. */
  ghost function ProfileDuplicates(rows: seq<Row>): int {
    |rows| - |DistinctRows(StripRows(rows))|
  }

  /** Blank cells of column `j` among the first `n` rows. */
  function MissingInColumn(rows: seq<Row>, j: nat, n: nat): nat
    requires n <= |rows| && forall i :: 0 <= i < |rows| ==> j < |rows[i]|
  {
    if n == 0 then 0 else MissingInColumn(rows, j, n - 1) + if Strip(rows[n - 1][j]) == "" then 1 else 0
  }

  /** `missing_value_total` over the first `k` columns. */
  function MissingTotal(rows: seq<Row>, width: nat, k: nat): nat
    requires Uniform(rows, width) && k <= width
  {
    if k == 0 then 0 else MissingTotal(rows, width, k - 1) + MissingInColumn(rows, k - 1, |rows|)
  }

  /** The two counts as the profiler computes them. */
  method ProfileCounts(rows: seq<Row>, width: nat) returns (duplicates: int, missing: nat)
    requires Uniform(rows, width)
    ensures duplicates == ProfileDuplicates(rows)
    ensures missing == MissingTotal(rows, width, width)
  {
    hide Strip, StripRow;
    var normalized := StripRows(rows);
    duplicates := |rows| - |set r | r in normalized|;
    missing := 0;
    for k := 0 to width
      invariant missing == MissingTotal(rows, width, k)
    {
      var blank := 0;
      for i := 0 to |rows|
        invariant blank == MissingInColumn(rows, k, i)
      {
        if Strip(rows[i][k]) == "" {
          blank := blank + 1;
        }
      }
      missing := missing + blank;
    }
  }

  /** Cleaned rows are already stripped, so the engine and the profiler count the same
      duplicates in them. */
  lemma DuplicateCountsAgree(p: Parsers, types: seq<ColumnType>, rows: seq<Row>)
    requires PrintsStripped(p) && Uniform(rows, |types|)
    ensures var cleaned := CleanRows(p, types, rows);
            ProfileDuplicates(cleaned) == |cleaned| - |DistinctRows(cleaned)|
  {
    hide CleanCell, Strip;
    var cleaned := CleanRows(p, types, rows);
    forall i | 0 <= i < |rows|
      ensures StripRow(cleaned[i]) == cleaned[i]
    {
      CleanRowStripped(p, types, rows[i]);
    }
    assert StripRows(cleaned) == cleaned;
  }

  lemma CleanRowStripped(p: Parsers, types: seq<ColumnType>, row: Row)
    requires PrintsStripped(p) && |row| == |types|
    ensures StripRow(CleanRow(p, types, row)) == CleanRow(p, types, row)
  {
    hide CleanCell;
    var cleaned := CleanRow(p, types, row);
    forall j | 0 <= j < |row|
      ensures Strip(cleaned[j]) == cleaned[j]
    {
      CleanCellProperties(p, row[j], types[j]);
    }
  }

  /** Rows equal up to surrounding whitespace are cleaned to equal rows. */
  lemma CleanRowOfStripped(p: Parsers, types: seq<ColumnType>, row: Row)
    requires PrintsStripped(p) && |row| == |types|
    ensures CleanRow(p, types, StripRow(row)) == CleanRow(p, types, row)
  {
    hide CleanCell, Strip;
    forall j | 0 <= j < |row|
      ensures CleanCell(p, Strip(row[j]), types[j]) == CleanCell(p, row[j], types[j])
    {
      CleanCellProperties(p, row[j], types[j]);
    }
  }

  ghost function Image(p: Parsers, types: seq<ColumnType>, s: set<Row>): set<Row>
    requires forall r <- s :: |r| == |types|
  {
    set r | r in s :: CleanRow(p, types, r)
  }

  lemma {:induction false} ImageSize(p: Parsers, types: seq<ColumnType>, s: set<Row>)
    requires forall r <- s :: |r| == |types|
    ensures |Image(p, types, s)| <= |s|
    decreases s
  {
    hide CleanRow;
    if s != {} {
      var x :| x in s;
      ImageSize(p, types, s - {x});
      assert Image(p, types, s) == Image(p, types, s - {x}) + {CleanRow(p, types, x)};
    }
  }

  /** Cleaning never separates duplicates: the count does not go down. */
  lemma DuplicatesNeverDrop(p: Parsers, types: seq<ColumnType>, rows: seq<Row>)
    requires PrintsStripped(p) && Uniform(rows, |types|)
    ensures ProfileDuplicates(rows) <= ProfileDuplicates(CleanRows(p, types, rows))
  {
    hide CleanRow, StripRow;
    var cleaned, s := CleanRows(p, types, rows), DistinctRows(StripRows(rows));
    DuplicateCountsAgree(p, types, rows);
    ImageSize(p, types, s);
    forall r | r in cleaned
      ensures r in Image(p, types, s)
    {
      var i :| 0 <= i < |rows| && cleaned[i] == r;
      CleanRowOfStripped(p, types, rows[i]);
      assert StripRows(rows)[i] in s;
    }
    SmallerSet(DistinctRows(cleaned), Image(p, types, s));
  }

  lemma SmallerSet(s: set<Row>, t: set<Row>)
    requires s <= t
    ensures |s| <= |t|
  {
    assert t == s + (t - s);
  }

  lemma {:induction false} ColumnMissingNeverDrops(
      p: Parsers, types: seq<ColumnType>, rows: seq<Row>, j: nat, n: nat)
    requires PrintsStripped(p) && Uniform(rows, |types|) && j < |types| && n <= |rows|
    ensures MissingInColumn(rows, j, n) <= MissingInColumn(CleanRows(p, types, rows), j, n)
  {
    hide CleanCell, Strip;
    if n > 0 {
      ColumnMissingNeverDrops(p, types, rows, j, n - 1);
      CleanCellProperties(p, rows[n - 1][j], types[j]);
      StripBlank();
    }
  }

  lemma StripBlank()
    ensures Strip("") == ""
  {
  }

  /** Cleaning never fills a blank: the missing total does not go down. */
  lemma {:induction false} MissingNeverDrops(p: Parsers, types: seq<ColumnType>, rows: seq<Row>, k: nat)
    requires PrintsStripped(p) && Uniform(rows, |types|) && k <= |types|
    ensures Uniform(CleanRows(p, types, rows), |types|)
    ensures MissingTotal(rows, |types|, k) <= MissingTotal(CleanRows(p, types, rows), |types|, k)
  {
    hide CleanCell, Strip, MissingInColumn;
    if k > 0 {
      MissingNeverDrops(p, types, rows, k - 1);
      ColumnMissingNeverDrops(p, types, rows, k - 1, |rows|);
    }
  }

  // ----- the missing count, counted

  /** The blank cells of the first `k` columns, as places in the table. */
  ghost function BlankPlaces(rows: seq<Row>, k: nat): set<(nat, nat)>
    requires forall i :: 0 <= i < |rows| ==> k <= |rows[i]|
  {
    set i: nat, j: nat | i < |rows| && j < k && Strip(rows[i][j]) == "" :: (i, j)
  }

  ghost function BlankInColumn(rows: seq<Row>, j: nat, n: nat): set<(nat, nat)>
    requires n <= |rows| && forall i :: 0 <= i < |rows| ==> j < |rows[i]|
  {
    set i: nat | i < n && Strip(rows[i][j]) == "" :: (i, j)
  }

  lemma {:induction false} MissingInColumnExact(rows: seq<Row>, j: nat, n: nat)
    requires n <= |rows| && forall i :: 0 <= i < |rows| ==> j < |rows[i]|
    ensures MissingInColumn(rows, j, n) == |BlankInColumn(rows, j, n)|
  {
    hide Strip;
    if n > 0 {
      MissingInColumnExact(rows, j, n - 1);
      var here: set<(nat, nat)> := if Strip(rows[n - 1][j]) == "" then {(n - 1, j)} else {};
      assert BlankInColumn(rows, j, n) == BlankInColumn(rows, j, n - 1) + here;
    }
  }

  /** The missing total is the number of blank cells in the table. */
  lemma {:induction false} MissingTotalExact(rows: seq<Row>, width: nat, k: nat)
    requires Uniform(rows, width) && k <= width
    ensures MissingTotal(rows, width, k) == |BlankPlaces(rows, k)|
  {
    if k == 0 {
      assert BlankPlaces(rows, 0) == {};
    } else {
      hide Strip, MissingInColumn, BlankPlaces, BlankInColumn;
      MissingTotalExact(rows, width, k - 1);
      MissingInColumnExact(rows, k - 1, |rows|);
      OneMoreColumn(rows, k - 1);
    }
  }

  lemma OneMoreColumn(rows: seq<Row>, k: nat)
    requires forall i :: 0 <= i < |rows| ==> k < |rows[i]|
    ensures |BlankPlaces(rows, k + 1)| == |BlankPlaces(rows, k)| + |BlankInColumn(rows, k, |rows|)|
  {
    hide Strip;
    var before, column := BlankPlaces(rows, k), BlankInColumn(rows, k, |rows|);
    assert before !! column by {
      forall q | q in before
        ensures q !in column
      {
        assert q.1 < k;
      }
    }
    forall q
      ensures q in BlankPlaces(rows, k + 1) <==> q in before + column
    {
      if q in BlankPlaces(rows, k + 1) && q.1 == k {
        assert q == (q.0, k);
      }
    }
    assert BlankPlaces(rows, k + 1) == before + column;
  }
}

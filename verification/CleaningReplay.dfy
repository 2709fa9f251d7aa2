/** The change log as a record: replaying it forwards turns the input into the output,
    and backwards the output into the input. */
module CleaningReplay {
  import opened Wrappers
  import opened Tables
  import opened Text
  import opened CleaningRules
  import opened Cleaning

  /** Where a column name is looked up: its first occurrence. */
  function FirstColumn(headers: seq<string>, name: string): (c: Option<nat>)
    ensures c.Some? ==> c.value < |headers| && headers[c.value] == name
    ensures c.Some? ==> forall j :: 0 <= j < c.value ==> headers[j] != name
    ensures c.None? ==> name !in headers
  {
    if headers == [] then None
    else if headers[0] == name then Some(0)
    else
      match FirstColumn(headers[1..], name)
      case None => None
      case Some(j) => Some(j + 1)
  }

  function Set(rows: seq<Row>, i: nat, j: nat, v: string): seq<Row>
    requires i < |rows| && j < |rows[i]|
  {
    rows[i := rows[i][j := v]]
  }

  /** Put `after` where `before` is found; anything else is a mismatch. */
  function Swap(headers: seq<string>, rows: seq<Row>, i: nat, column: string, before: string, after: string)
    : Option<seq<Row>>
  {
    match FirstColumn(headers, column)
    case None => None
    case Some(j) =>
      if i < |rows| && j < |rows[i]| && rows[i][j] == before then Some(Set(rows, i, j, after)) else None
  }

  /** Applying the log, first entry first. */
  function Replay(headers: seq<string>, rows: seq<Row>, log: seq<Change>): Option<seq<Row>> {
    if log == [] then Some(rows)
    else
      var c := log[|log| - 1];
      match Replay(headers, rows, log[..|log| - 1])
      case None => None
      case Some(mid) => Swap(headers, mid, c.row, c.column, c.before, c.after)
  }

  /** Taking the log back, last entry first. */
  function Undo(headers: seq<string>, rows: seq<Row>, log: seq<Change>): Option<seq<Row>>
    decreases |log|
  {
    if log == [] then Some(rows)
    else
      var c := log[|log| - 1];
      match Swap(headers, rows, c.row, c.column, c.after, c.before)
      case None => None
      case Some(mid) => Undo(headers, mid, log[..|log| - 1])
  }

  /** Whatever replays can be undone. */
  lemma {:induction false} UndoInvertsReplay(headers: seq<string>, rows: seq<Row>, log: seq<Change>)
    requires Replay(headers, rows, log).Some?
    ensures Undo(headers, Replay(headers, rows, log).value, log) == Some(rows)
  {
    if log != [] {
      var front, c := log[..|log| - 1], log[|log| - 1];
      var mid := Replay(headers, rows, front).value;
      UndoInvertsReplay(headers, rows, front);
      var j := FirstColumn(headers, c.column).value;
      var out := Set(mid, c.row, j, c.after);
      assert out[c.row][j := c.before] == mid[c.row];
      assert Set(out, c.row, j, c.before) == mid;
    }
  }

  lemma {:induction false} ReplayConcat(headers: seq<string>, rows: seq<Row>, a: seq<Change>, b: seq<Change>)
    requires Replay(headers, rows, a).Some?
    ensures Replay(headers, rows, a + b) == Replay(headers, Replay(headers, rows, a).value, b)
  {
    if b == [] {
      assert a + b == a;
    } else {
      assert (a + b)[..|a + b| - 1] == a + b[..|b| - 1];
      ReplayConcat(headers, rows, a, b[..|b| - 1]);
    }
  }

  ghost predicate DistinctHeaders(headers: seq<string>) {
    forall i, j :: 0 <= i < j < |headers| ==> headers[i] != headers[j]
  }

  /** One rule on one cell. */
  lemma ReplayNoted(
      headers: seq<string>, rows: seq<Row>, i: nat, j: nat, before: string, after: string, rule: Option<RuleName>)
    requires DistinctHeaders(headers) && i < |rows| && j < |headers| == |rows[i]| && rows[i][j] == before
    requires rule.None? ==> after == before
    ensures Replay(headers, rows, Noted(i, headers[j], before, after, rule)) == Some(Set(rows, i, j, after))
  {
    var log := Noted(i, headers[j], before, after, rule);
    assert FirstColumn(headers, headers[j]) == Some(j);
    if log == [] {
      assert rows[i][j := after] == rows[i];
      assert Set(rows, i, j, after) == rows;
    } else {
      assert log[..|log| - 1] == [];
    }
  }

  lemma SetTwice(rows: seq<Row>, i: nat, j: nat, v: string, w: string)
    requires i < |rows| && j < |rows[i]|
    ensures Set(Set(rows, i, j, v), i, j, w) == Set(rows, i, j, w)
  {
    assert Set(rows, i, j, v)[i][j := w] == rows[i][j := w];
  }

  lemma ReplayCell(p: Parsers, t: ColumnType, headers: seq<string>, rows: seq<Row>, i: nat, j: nat)
    requires DistinctHeaders(headers) && i < |rows| && j < |headers| == |rows[i]|
    ensures Replay(headers, rows, CellChanges(p, t, i, headers[j], rows[i][j]))
         == Some(Set(rows, i, j, CleanCell(p, rows[i][j], t)))
  {
    hide TrimWhitespace, NormalizeBlank, CoerceType, Noted, Replay;
    var v := rows[i][j];
    var (v1, r1) := TrimWhitespace(v);
    var (v2, r2) := NormalizeBlank(p, v1);
    var (v3, r3) := CoerceType(p, v2, t);
    RulesReportChanges(p, v, t);
    RulesReportChanges(p, v1, t);
    RulesReportChanges(p, v2, t);
    var h := headers[j];
    var s1, s2 := Set(rows, i, j, v1), Set(rows, i, j, v2);
    ReplayNoted(headers, rows, i, j, v, v1, r1);
    ReplayNoted(headers, s1, i, j, v1, v2, r2);
    SetTwice(rows, i, j, v1, v2);
    ReplayNoted(headers, s2, i, j, v2, v3, r3);
    SetTwice(rows, i, j, v2, v3);
    ReplayConcat(headers, rows, Noted(i, h, v, v1, r1), Noted(i, h, v1, v2, r2));
    ReplayConcat(headers, rows, Noted(i, h, v, v1, r1) + Noted(i, h, v1, v2, r2), Noted(i, h, v2, v3, r3));
  }

  /** The row with its first `n` cells cleaned. */
  function PartRow(p: Parsers, types: seq<ColumnType>, row: Row, n: nat): Row
    requires n <= |row| == |types|
  {
    CleanRow(p, types, row)[..n] + row[n..]
  }

  lemma {:induction false} ReplayRow(
      p: Parsers, types: seq<ColumnType>, headers: seq<string>, rows: seq<Row>, i: nat, n: nat)
    requires DistinctHeaders(headers) && i < |rows| && n <= |types| == |headers| == |rows[i]|
    ensures Replay(headers, rows, RowChanges(p, types, headers, i, rows[i], n))
         == Some(rows[i := PartRow(p, types, rows[i], n)])
  {
    hide CellChanges, Replay, CleanCell;
    if n == 0 {
      assert PartRow(p, types, rows[i], 0) == rows[i];
      assert rows[i := rows[i]] == rows;
      ReplayNothing(headers, rows);
    } else {
      var row := rows[i];
      var part := rows[i := PartRow(p, types, row, n - 1)];
      ReplayRow(p, types, headers, rows, i, n - 1);
      assert part[i][n - 1] == row[n - 1];
      ReplayCell(p, types[n - 1], headers, part, i, n - 1);
      ReplayConcat(headers, rows, RowChanges(p, types, headers, i, row, n - 1),
                   CellChanges(p, types[n - 1], i, headers[n - 1], row[n - 1]));
      assert part[i][n - 1 := CleanCell(p, row[n - 1], types[n - 1])] == PartRow(p, types, row, n);
      assert Set(part, i, n - 1, CleanCell(p, row[n - 1], types[n - 1])) == rows[i := PartRow(p, types, row, n)];
    }
  }

  lemma ReplayNothing(headers: seq<string>, rows: seq<Row>)
    ensures Replay(headers, rows, []) == Some(rows)
  {
  }

  lemma {:induction false} ReplayRows(
      p: Parsers, types: seq<ColumnType>, headers: seq<string>, rows: seq<Row>, n: nat)
    requires DistinctHeaders(headers) && |types| == |headers| && Uniform(rows, |types|) && n <= |rows|
    ensures Replay(headers, rows, AllChanges(p, types, headers, rows, n))
         == Some(CleanRows(p, types, rows)[..n] + rows[n..])
  {
    hide CleanRow, Replay, RowChanges;
    var cleaned := CleanRows(p, types, rows);
    if n == 0 {
      assert cleaned[..0] + rows[0..] == rows;
      ReplayNothing(headers, rows);
    } else {
      var part := cleaned[..n - 1] + rows[n - 1..];
      ReplayRows(p, types, headers, rows, n - 1);
      assert part[n - 1] == rows[n - 1];
      ReplayRow(p, types, headers, part, n - 1, |types|);
      WholeRow(p, types, rows[n - 1]);
      ReplayConcat(headers, rows, AllChanges(p, types, headers, rows, n - 1),
                   RowChanges(p, types, headers, n - 1, rows[n - 1], |types|));
      assert part[n - 1 := cleaned[n - 1]] == cleaned[..n] + rows[n..];
    }
  }

  lemma WholeRow(p: Parsers, types: seq<ColumnType>, row: Row)
    requires |row| == |types|
    ensures PartRow(p, types, row, |types|) == CleanRow(p, types, row)
  {
  }

  /** With distinct headers the uncapped log replays the input into the cleaned rows, and
      undoing it restores the input. */
  lemma LogReplays(p: Parsers, types: seq<ColumnType>, headers: seq<string>, rows: seq<Row>)
    requires DistinctHeaders(headers) && |types| == |headers| && Uniform(rows, |types|)
    ensures var log := AllChanges(p, types, headers, rows, |rows|);
            && Replay(headers, rows, log) == Some(CleanRows(p, types, rows))
            && Undo(headers, CleanRows(p, types, rows), log) == Some(rows)
  {
    var n := |rows|;
    ReplayRows(p, types, headers, rows, n);
    assert CleanRows(p, types, rows)[..n] + rows[n..] == CleanRows(p, types, rows);
    UndoInvertsReplay(headers, rows, AllChanges(p, types, headers, rows, n));
  }

  /** A table on which a repeated header makes the log ambiguous: one row, blank but for
      a space in the second of the two columns. */
  lemma RepeatedHeaderBreaksReplay(p: Parsers, headers: seq<string>, i: nat, j: nat)
    returns (types: seq<ColumnType>, rows: seq<Row>)
    requires i < j < |headers| && headers[i] == headers[j]
    ensures |types| == |headers| && Uniform(rows, |types|)
    ensures Replay(headers, rows, AllChanges(p, types, headers, rows, |rows|)) != Some(CleanRows(p, types, rows))
  {
    hide CellChanges, CleanCell;
    var n := |headers|;
    types := seq(n, _ => OtherColumn);
    var row := seq(n, k => if k == j then " " else "");
    rows := [row];
    OnlyChange(p, types, headers, row, j, n);
    var c := Change(0, headers[j], " ", "", TrimWhitespaceRule);
    assert AllChanges(p, types, headers, rows, 0) == [];
    assert AllChanges(p, types, headers, rows, 1) == [c];
    MismatchedEntry(headers, rows, c, i);
  }

  /** An entry whose column is found first where the cell is not as recorded does not replay. */
  lemma MismatchedEntry(headers: seq<string>, rows: seq<Row>, c: Change, i: nat)
    requires i < |headers| && headers[i] == c.column && c.row < |rows| && |rows[c.row]| == |headers|
    requires forall k :: 0 <= k <= i ==> rows[c.row][k] != c.before
    ensures Replay(headers, rows, [c]).None?
  {
    assert [c][..0] == [];
    ReplayNothing(headers, rows);
    assert FirstColumn(headers, c.column).value <= i;
  }

  /** The log of this table replays to its cleaned rows. */
  ghost predicate Replays(p: Parsers, headers: seq<string>, types: seq<ColumnType>, rows: seq<Row>)
    requires |types| == |headers| && Uniform(rows, |types|)
  {
    Replay(headers, rows, AllChanges(p, types, headers, rows, |rows|)) == Some(CleanRows(p, types, rows))
  }

  /** The log is a faithful record of every table with these headers exactly when no
      header is repeated. */
  lemma ReplaysExactlyWhenDistinct(p: Parsers, headers: seq<string>)
    ensures DistinctHeaders(headers) <==>
      forall types: seq<ColumnType>, rows: seq<Row> :: |types| == |headers| && Uniform(rows, |types|) ==>
        Replays(p, headers, types, rows)
  {
    hide AllChanges, CleanRows, Replay, Undo;
    if DistinctHeaders(headers) {
      forall types: seq<ColumnType>, rows: seq<Row> | |types| == |headers| && Uniform(rows, |types|)
        ensures Replays(p, headers, types, rows)
      {
        LogReplays(p, types, headers, rows);
      }
    } else {
      var i, j :| 0 <= i < j < |headers| && headers[i] == headers[j];
      var types, rows := RepeatedHeaderBreaksReplay(p, headers, i, j);
      assert !Replays(p, headers, types, rows);
    }
  }

  lemma SpaceIsCleaned(p: Parsers, i: nat, column: string)
    ensures CellChanges(p, OtherColumn, i, column, " ") == [Change(i, column, " ", "", TrimWhitespaceRule)]
    ensures CellChanges(p, OtherColumn, i, column, "") == []
  {
    assert IsSpace(' ');
    assert StripLeft(" ") == StripLeft(" "[1..]) == "";
    assert Trim(" ") == "" && Trim("") == "";
  }

  lemma {:induction false} OnlyChange(
      p: Parsers, types: seq<ColumnType>, headers: seq<string>, row: Row, j: nat, n: nat)
    requires j < |row| == |types| == |headers| && n <= |row|
    requires forall k :: 0 <= k < |row| ==> types[k] == OtherColumn && row[k] == if k == j then " " else ""
    ensures RowChanges(p, types, headers, 0, row, n)
         == if n <= j then [] else [Change(0, headers[j], " ", "", TrimWhitespaceRule)]
  {
    hide CellChanges;
    if n > 0 {
      OnlyChange(p, types, headers, row, j, n - 1);
      SpaceIsCleaned(p, 0, headers[n - 1]);
      assert row[n - 1] == if n - 1 == j then " " else "";
      assert types[n - 1] == OtherColumn;
    }
  }
}

/** `clean`: every cell through the pipeline, every modification on a change log. */
module Cleaning {
  import opened Wrappers
  import opened Sequences
  import opened Tables
  import opened Text
  import opened CleaningRules

  datatype Change = Change(row: nat, column: string, before: string, after: string, rule: RuleName)

  datatype CleaningResult = CleaningResult(
    rows: seq<Row>, changes: seq<Change>, totalChanges: nat, byRule: map<RuleName, nat>,
    duplicates: nat, confidence: real)

  // ----- specification

  function CleanRow(p: Parsers, types: seq<ColumnType>, row: Row): Row
    requires |row| == |types|
  {
    seq(|row|, j requires 0 <= j < |row| => CleanCell(p, row[j], types[j]))
  }

  function CleanRows(p: Parsers, types: seq<ColumnType>, rows: seq<Row>): seq<Row>
    requires Uniform(rows, |types|)
  {
    seq(|rows|, i requires 0 <= i < |rows| => CleanRow(p, types, rows[i]))
  }

  /** `_record`: an entry only for a rule that fired and changed the value. */
  function Noted(row: nat, column: string, before: string, after: string, rule: Option<RuleName>): seq<Change> {
    if rule.None? || before == after then [] else [Change(row, column, before, after, rule.value)]
  }

  function CellChanges(p: Parsers, t: ColumnType, row: nat, column: string, value: string): seq<Change> {
    var (v1, r1) := TrimWhitespace(value);
    var (v2, r2) := NormalizeBlank(p, v1);
    var (v3, r3) := CoerceType(p, v2, t);
    Noted(row, column, value, v1, r1) + Noted(row, column, v1, v2, r2) + Noted(row, column, v2, v3, r3)
  }

  /** The changes of the first `n` cells of a row. */
  function RowChanges(p: Parsers, types: seq<ColumnType>, headers: seq<string>, i: nat, row: Row, n: nat): seq<Change>
    requires n <= |row| == |types| == |headers|
  {
    if n == 0 then []
    else RowChanges(p, types, headers, i, row, n - 1) + CellChanges(p, types[n - 1], i, headers[n - 1], row[n - 1])
  }

  /** The changes of the first `n` rows. */
  function AllChanges(p: Parsers, types: seq<ColumnType>, headers: seq<string>, rows: seq<Row>, n: nat): seq<Change>
    requires n <= |rows| && |types| == |headers| && Uniform(rows, |types|)
  {
    if n == 0 then []
    else AllChanges(p, types, headers, rows, n - 1)
         + RowChanges(p, types, headers, n - 1, rows[n - 1], |types|)
  }

  function CountRule(changes: seq<Change>, r: RuleName): nat {
    if changes == [] then 0
    else CountRule(changes[..|changes| - 1], r) + if changes[|changes| - 1].rule == r then 1 else 0
  }

  ghost predicate CountsByRule(changes: seq<Change>, byRule: map<RuleName, nat>) {
    forall r :: (r in byRule <==> CountRule(changes, r) > 0) && (r in byRule ==> byRule[r] == CountRule(changes, r))
  }

  /** The least confidence among the changes, 1 if there are none. */
  ghost predicate LeastConfidence(changes: seq<Change>, c: real) {
    && (changes == [] ==> c == 1.0)
    && (changes != [] ==> exists i :: 0 <= i < |changes| && Confidence(changes[i].rule) == c)
    && (forall i :: 0 <= i < |changes| ==> c <= Confidence(changes[i].rule))
  }

  ghost function DistinctRows(rows: seq<Row>): set<Row> {
    set r | r in rows
  }

  // ----- the loops

  method CountDuplicates(rows: seq<Row>) returns (duplicates: nat)
    ensures duplicates == |rows| - |DistinctRows(rows)|
  {
    var seen: set<Row> := {};
    duplicates := 0;
    for i := 0 to |rows|
      invariant seen == DistinctRows(rows[..i])
      invariant duplicates == i - |seen|
    {
      DistinctNext(rows, i);
      if rows[i] in seen {
        duplicates := duplicates + 1;
      } else {
        seen := seen + {rows[i]};
      }
    }
    assert rows[..|rows|] == rows;
  }

  lemma DistinctNext(rows: seq<Row>, i: nat)
    requires i < |rows|
    ensures DistinctRows(rows[..i + 1]) == DistinctRows(rows[..i]) + {rows[i]}
  {
    assert rows[..i + 1] == rows[..i] + [rows[i]];
  }

  lemma CountsNext(changes: seq<Change>, byRule: map<RuleName, nat>, c: Change)
    requires CountsByRule(changes, byRule)
    ensures CountsByRule(changes + [c], byRule[c.rule := (if c.rule in byRule then byRule[c.rule] else 0) + 1])
  {
    assert (changes + [c])[..|changes|] == changes;
    assert forall r :: CountRule(changes + [c], r) == CountRule(changes, r) + if c.rule == r then 1 else 0;
  }

  /** The change log being written, and the tally beside it. */
  class ChangeLog {
    var changes: seq<Change>
    var byRule: map<RuleName, nat>

    ghost predicate Valid()
      reads this
    {
      CountsByRule(changes, byRule)
    }

    constructor ()
      ensures Valid() && changes == []
    {
      changes, byRule := [], map[];
    }

    method Record(row: nat, column: string, before: string, after: string, rule: Option<RuleName>)
      requires Valid()
      modifies this
      ensures Valid() && changes == old(changes) + Noted(row, column, before, after, rule)
    {
      if rule.None? || before == after {
        return;
      }
      var c := Change(row, column, before, after, rule.value);
      CountsNext(changes, byRule, c);
      changes := changes + [c];
      byRule := byRule[c.rule := (if c.rule in byRule then byRule[c.rule] else 0) + 1];
    }
  }

  method CleanOneCell(p: Parsers, t: ColumnType, i: nat, column: string, raw: string, log: ChangeLog)
    returns (value: string)
    requires log.Valid()
    modifies log
    ensures log.Valid() && value == CleanCell(p, raw, t)
    ensures log.changes == old(log.changes) + CellChanges(p, t, i, column, raw)
  {
    hide CountsByRule, TrimWhitespace, NormalizeBlank, CoerceType, Noted;
    var (v1, r1) := TrimWhitespace(raw);
    log.Record(i, column, raw, v1, r1);
    var (v2, r2) := NormalizeBlank(p, v1);
    log.Record(i, column, v1, v2, r2);
    var (v3, r3) := CoerceType(p, v2, t);
    log.Record(i, column, v2, v3, r3);
    value := v3;
  }

  method CleanOneRow(p: Parsers, types: seq<ColumnType>, headers: seq<string>, i: nat, row: Row, log: ChangeLog)
    returns (cleaned: Row)
    requires |row| == |types| == |headers| && log.Valid()
    modifies log
    ensures log.Valid() && cleaned == CleanRow(p, types, row)
    ensures log.changes == old(log.changes) + RowChanges(p, types, headers, i, row, |row|)
  {
    hide CountsByRule, CellChanges, CleanCell;
    cleaned := row;
    for j := 0 to |row|
      invariant log.Valid() && |cleaned| == |row|
      invariant forall k :: 0 <= k < j ==> cleaned[k] == CleanCell(p, row[k], types[k])
      invariant forall k :: j <= k < |row| ==> cleaned[k] == row[k]
      invariant log.changes == old(log.changes) + RowChanges(p, types, headers, i, row, j)
    {
      var value := CleanOneCell(p, types[j], i, headers[j], row[j], log);
      cleaned := cleaned[j := value];
    }
  }

  method MinimumConfidence(changes: seq<Change>) returns (c: real)
    ensures LeastConfidence(changes, c)
  {
    c := 1.0;
    for i := 0 to |changes|
      invariant i == 0 ==> c == 1.0
      invariant i > 0 ==> exists j :: 0 <= j < i && Confidence(changes[j].rule) == c
      invariant forall j :: 0 <= j < i ==> c <= Confidence(changes[j].rule)
    {
      if i == 0 || Confidence(changes[i].rule) < c {
        c := Confidence(changes[i].rule);
      }
    }
  }

  /** The whole engine.  Only the persisted list is capped; every count is of the full log. */
  method Clean(p: Parsers, rows: seq<Row>, headers: seq<string>, types: seq<ColumnType>, maxPersisted: nat)
    returns (r: CleaningResult)
    requires |types| == |headers| && Uniform(rows, |types|)
    ensures var all := AllChanges(p, types, headers, rows, |rows|);
            && r.rows == CleanRows(p, types, rows)
            && r.changes == (if |all| <= maxPersisted then all else all[..maxPersisted])
            && r.totalChanges == |all|
            && CountsByRule(all, r.byRule)
            && LeastConfidence(all, r.confidence)
            && r.duplicates == |rows| - |DistinctRows(r.rows)|
    ensures Uniform(r.rows, |types|) && |r.rows| == |rows|
    ensures forall i, j | 0 <= i < |rows| && 0 <= j < |types| && types[j].OtherColumn? ::
              p.casefold(Trim(rows[i][j])) !in BLANK_EQUIVALENTS ==> KeepsWords(rows[i][j], r.rows[i][j])
  {
    hide CountsByRule, LeastConfidence, CleanRow, RowChanges, KeepsWords, Trim;
    var log := new ChangeLog();
    var cleaned: seq<Row> := [];
    for i := 0 to |rows|
      invariant log.Valid() && |cleaned| == i
      invariant forall k :: 0 <= k < i ==> cleaned[k] == CleanRow(p, types, rows[k])
      invariant log.changes == AllChanges(p, types, headers, rows, i)
    {
      var row := CleanOneRow(p, types, headers, i, rows[i], log);
      cleaned := cleaned + [row];
    }
    assert cleaned == CleanRows(p, types, rows);
    var duplicates := CountDuplicates(cleaned);
    var confidence := MinimumConfidence(log.changes);
    var persisted := if |log.changes| <= maxPersisted then log.changes else log.changes[..maxPersisted];
    forall i, j | 0 <= i < |rows| && 0 <= j < |types| && types[j].OtherColumn?
                  && p.casefold(Trim(rows[i][j])) !in BLANK_EQUIVALENTS
      ensures KeepsWords(rows[i][j], CleanCell(p, rows[i][j], OtherColumn))
    {
      UntypedCellKeepsWords(p, rows[i][j]);
    }
    forall i | 0 <= i < |rows|
      ensures |CleanRow(p, types, rows[i])| == |types|
      ensures forall j :: 0 <= j < |types| ==> CleanRow(p, types, rows[i])[j] == CleanCell(p, rows[i][j], types[j])
    {
      CleanRowCells(p, types, rows[i]);
    }
    r := CleaningResult(cleaned, persisted, |log.changes|, log.byRule, duplicates, confidence);
  }

  lemma CleanRowCells(p: Parsers, types: seq<ColumnType>, row: Row)
    requires |row| == |types|
    ensures |CleanRow(p, types, row)| == |types|
    ensures forall j :: 0 <= j < |types| ==> CleanRow(p, types, row)[j] == CleanCell(p, row[j], types[j])
  {
  }

  // ----- what the log says

  /** Where the tally by rule comes from: it counts the entries that name the rule. */
  lemma {:induction false} CountRuleExact(changes: seq<Change>, r: RuleName)
    ensures CountRule(changes, r) == |Places(changes, (c: Change) => c.rule == r)|
  {
    var P := (c: Change) => c.rule == r;
    if changes == [] {
      assert Places(changes, P) == {};
    } else {
      var front := changes[..|changes| - 1];
      assert changes == front + [changes[|changes| - 1]];
      CountRuleExact(front, r);
      PlacesSnoc(front, changes[|changes| - 1], P);
    }
  }

  /** An entry tells a true change made by the rule it names, to the cell as the rules
      before it left it. */
  ghost predicate Explains(p: Parsers, t: ColumnType, value: string, c: Change) {
    && c.before != c.after
    && match c.rule
       case TrimWhitespaceRule => c.before == value && c.after == Trim(value)
       case NormalizeBlankRule =>
         c.before == Trim(value) != "" && p.casefold(c.before) in BLANK_EQUIVALENTS && c.after == ""
       case CoerceIntegerRule => t.IntegerColumn? && Coerced(p, t, value, c)
       case CoerceDecimalRule => t.DecimalColumn? && Coerced(p, t, value, c)
       case CoerceBooleanRule => t.BooleanColumn? && Coerced(p, t, value, c)
       case NormalizeDateRule => (t.DateColumn? || t.DatetimeColumn?) && Coerced(p, t, value, c)
  }

  ghost predicate Coerced(p: Parsers, t: ColumnType, value: string, c: Change) {
    && c.before == Trim(value) != "" && p.casefold(c.before) !in BLANK_EQUIVALENTS
    && c.after == CleanCell(p, value, t)
  }

  lemma CellChangesExplained(p: Parsers, t: ColumnType, row: nat, column: string, value: string)
    ensures forall c <- CellChanges(p, t, row, column, value) ::
      c.row == row && c.column == column && Explains(p, t, value, c)
  {
    hide Trim, Strip;
  }

  /** Every entry of the log names its row, its column and the rule that made it. */
  ghost predicate ExplainedBy(
    p: Parsers, types: seq<ColumnType>, headers: seq<string>, rows: seq<Row>, c: Change, i: nat, j: nat)
    requires |types| == |headers| && Uniform(rows, |types|)
  {
    && i < |rows| && j < |types| && c.row == i && c.column == headers[j] && Explains(p, types[j], rows[i][j], c)
  }

  lemma {:induction false} RowChangesExplained(
      p: Parsers, types: seq<ColumnType>, headers: seq<string>, rows: seq<Row>, i: nat, n: nat)
    requires |types| == |headers| && Uniform(rows, |types|) && i < |rows| && n <= |types|
    ensures forall c <- RowChanges(p, types, headers, i, rows[i], n) ::
      exists j :: ExplainedBy(p, types, headers, rows, c, i, j)
  {
    hide CellChanges, Explains;
    if n > 0 {
      RowChangesExplained(p, types, headers, rows, i, n - 1);
      CellChangesExplained(p, types[n - 1], i, headers[n - 1], rows[i][n - 1]);
      var added := CellChanges(p, types[n - 1], i, headers[n - 1], rows[i][n - 1]);
      forall k | 0 <= k < |added|
        ensures ExplainedBy(p, types, headers, rows, added[k], i, n - 1)
      {
      }
    }
  }

  lemma {:induction false} ChangesExplained(
      p: Parsers, types: seq<ColumnType>, headers: seq<string>, rows: seq<Row>, n: nat)
    requires |types| == |headers| && Uniform(rows, |types|) && n <= |rows|
    ensures forall c <- AllChanges(p, types, headers, rows, n) ::
      exists i, j :: ExplainedBy(p, types, headers, rows, c, i, j)
  {
    hide RowChanges, ExplainedBy;
    if n > 0 {
      ChangesExplained(p, types, headers, rows, n - 1);
      RowChangesExplained(p, types, headers, rows, n - 1, |types|);
    }
  }

  /** All entries name rows from `low` up to but not including `high`, in order. */
  ghost predicate InRows(changes: seq<Change>, low: nat, high: nat) {
    && (forall k :: 0 <= k < |changes| ==> low <= changes[k].row < high)
    && forall k, l :: 0 <= k < l < |changes| ==> changes[k].row <= changes[l].row
  }

  lemma InRowsConcat(a: seq<Change>, b: seq<Change>, low: nat, mid: nat, high: nat)
    requires InRows(a, low, mid) && InRows(b, mid, high) && low <= mid <= high
    ensures InRows(a + b, low, high)
  {
  }

  lemma NothingInRows(low: nat, high: nat)
    ensures InRows([], low, high)
  {
  }

  lemma SameRowConcat(a: seq<Change>, b: seq<Change>, i: nat)
    requires InRows(a, i, i + 1) && InRows(b, i, i + 1)
    ensures InRows(a + b, i, i + 1)
  {
  }

  lemma CellInRow(p: Parsers, t: ColumnType, i: nat, column: string, value: string)
    ensures InRows(CellChanges(p, t, i, column, value), i, i + 1)
  {
    hide CoerceType, Trim, NormalizeBlank, TrimWhitespace;
  }

  lemma {:induction false} RowInRow(
      p: Parsers, types: seq<ColumnType>, headers: seq<string>, i: nat, row: Row, n: nat)
    requires n <= |row| == |types| == |headers|
    ensures InRows(RowChanges(p, types, headers, i, row, n), i, i + 1)
  {
    hide InRows, CellChanges;
    if n == 0 {
      NothingInRows(i, i + 1);
    } else {
      RowInRow(p, types, headers, i, row, n - 1);
      CellInRow(p, types[n - 1], i, headers[n - 1], row[n - 1]);
      SameRowConcat(RowChanges(p, types, headers, i, row, n - 1),
                    CellChanges(p, types[n - 1], i, headers[n - 1], row[n - 1]), i);
    }
  }

  /** The log goes through the table row by row, so a capped log covers its first rows. */
  lemma {:induction false} ChangesByRow(
      p: Parsers, types: seq<ColumnType>, headers: seq<string>, rows: seq<Row>, n: nat)
    requires |types| == |headers| && Uniform(rows, |types|) && n <= |rows|
    ensures InRows(AllChanges(p, types, headers, rows, n), 0, n)
  {
    hide InRows, RowChanges;
    if n == 0 {
      NothingInRows(0, 0);
    } else {
      ChangesByRow(p, types, headers, rows, n - 1);
      RowInRow(p, types, headers, n - 1, rows[n - 1], |types|);
      InRowsConcat(AllChanges(p, types, headers, rows, n - 1),
                   RowChanges(p, types, headers, n - 1, rows[n - 1], |types|), 0, n - 1, n);
    }
  }
}

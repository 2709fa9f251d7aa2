/** Blocking and pairwise scoring: which field keys the blocks, what a row's
    blocking key is, and the weighted score of a pair. */
module Comparison {
  import opened Wrappers
  import opened Tables
  import opened Text

  datatype ComparisonType = Exact | NormalizedExact

  datatype FieldSpec = FieldSpec(columnName: string, comparisonType: ComparisonType, weight: real)

  datatype FieldComparison = FieldComparison(
    valueA: string, valueB: string, matched: bool, weight: real, contribution: real)

  /** The two foldings text goes through before it is compared: one for column
      names, one for cell values.  Nothing below depends on what they do. */
  datatype Folding = Folding(name: string -> string, cell: string -> string)

  /** The foldings the program uses.  Case folding itself is a library table, so
      it stays a parameter: names are stripped and folded, cells trimmed and folded. */
  function FoldingFrom(casefold: string -> string): Folding {
    Folding(name => casefold(Strip(name)), value => casefold(Trim(value)))
  }

  /** A folding that blanks nothing but the empty string leaves blank exactly the cells
      that are blank to the eye. */
  lemma BlankKeyIffBlankCell(casefold: string -> string, value: string)
    requires casefold("") == "" && (Trim(value) != "" ==> casefold(Trim(value)) != "")
    ensures FoldingFrom(casefold).cell(value) == "" <==> Strip(value) == ""
  {
    hide Trim, Strip;
    TrimProperties(value);
  }

  /** `t` is `s` without its surrounding whitespace, and nothing else is gone. */
  ghost predicate StripsTo(s: string, t: string) {
    Stripped(t) && exists i, j | 0 <= i <= j <= |s| ::
      t == s[i..j] && forall k :: 0 <= k < i || j <= k < |s| ==> IsSpace(s[k])
  }

  /** Column names are folded with their inner spacing, cells with their words one space
      apart. */
  lemma FoldingsSee(casefold: string -> string, s: string)
    ensures exists t :: StripsTo(s, t) && FoldingFrom(casefold).name(s) == casefold(t)
    ensures exists t :: KeepsWords(s, t) && Stripped(t) && FoldingFrom(casefold).cell(s) == casefold(t)
  {
    hide KeepsWords, Trim, IsSpace;
    var i, j := StripExact(s);
    assert StripsTo(s, Strip(s));
    TrimKeepsWords(s);
    assert KeepsWords(s, Trim(s));
  }

  /** The first header equal to `name` once both are folded. */
  function ColumnIndex(fold: Folding, headers: seq<string>, name: string): (c: Option<nat>)
    ensures c.Some? ==> c.value < |headers| && fold.name(headers[c.value]) == fold.name(name)
    ensures c.Some? ==> forall i :: 0 <= i < c.value ==> fold.name(headers[i]) != fold.name(name)
    ensures c.None? ==> forall i :: 0 <= i < |headers| ==> fold.name(headers[i]) != fold.name(name)
  {
    if headers == [] then None
    else if fold.name(headers[0]) == fold.name(name) then Some(0)
    else
      match ColumnIndex(fold, headers[1..], name)
      case None => None
      case Some(i) => Some(i + 1)
  }

  /** The row's value in the named column; a column that is absent reads as blank. */
  function Cell(fold: Folding, headers: seq<string>, row: Row, name: string): string
    requires |row| == |headers|
  {
    match ColumnIndex(fold, headers, name)
    case Some(i) => row[i]
    case None => ""
  }

  function CompareField(fold: Folding, valueA: string, valueB: string, ct: ComparisonType): (bool, string, string) {
    var (a, b) := if ct.NormalizedExact?
                  then (fold.cell(valueA), fold.cell(valueB))
                  else (valueA, valueB);
    (a == b, a, b)
  }

  // ----- the weighted score

  predicate FieldMatches(fold: Folding, headers: seq<string>, spec: FieldSpec, a: Row, b: Row)
    requires |a| == |headers| && |b| == |headers|
  {
    CompareField(fold, Cell(fold, headers, a, spec.columnName), Cell(fold, headers, b, spec.columnName),
                 spec.comparisonType).0
  }

  function TotalWeight(fields: seq<FieldSpec>): real {
    if fields == [] then 0.0 else TotalWeight(fields[..|fields| - 1]) + fields[|fields| - 1].weight
  }

  function MatchedWeight(fold: Folding, headers: seq<string>, fields: seq<FieldSpec>, a: Row, b: Row): real
    requires |a| == |headers| && |b| == |headers|
  {
    if fields == [] then 0.0
    else
      var spec := fields[|fields| - 1];
      MatchedWeight(fold, headers, fields[..|fields| - 1], a, b)
      + if FieldMatches(fold, headers, spec, a, b) then spec.weight else 0.0
  }

  function Score(fold: Folding, headers: seq<string>, fields: seq<FieldSpec>, a: Row, b: Row): real
    requires |a| == |headers| && |b| == |headers|
  {
    var total := TotalWeight(fields);
    if total > 0.0 then MatchedWeight(fold, headers, fields, a, b) / total else 0.0
  }

  function FieldAudit(fold: Folding, headers: seq<string>, spec: FieldSpec, a: Row, b: Row): FieldComparison
    requires |a| == |headers| && |b| == |headers|
  {
    var (matched, x, y) := CompareField(fold, Cell(fold, headers, a, spec.columnName),
                                        Cell(fold, headers, b, spec.columnName), spec.comparisonType);
    FieldComparison(x, y, matched, spec.weight, if matched then spec.weight else 0.0)
  }

  /** The audit dictionary: the last field of a given name is the one kept. */
  function FieldComparisons(fold: Folding, headers: seq<string>, fields: seq<FieldSpec>, a: Row, b: Row)
    : map<string, FieldComparison>
    requires |a| == |headers| && |b| == |headers|
  {
    if fields == [] then map[]
    else
      var spec := fields[|fields| - 1];
      FieldComparisons(fold, headers, fields[..|fields| - 1], a, b)
        [spec.columnName := FieldAudit(fold, headers, spec, a, b)]
  }

  // ----- what the audit and the score say

  /** `value` is what the named column holds in `row`: nothing where there is no such column. */
  ghost predicate Holds(fold: Folding, headers: seq<string>, row: Row, name: string, value: string)
    requires |row| == |headers|
  {
    var c := ColumnIndex(fold, headers, name);
    (c.Some? ==> value == row[c.value]) && (c.None? ==> value == "")
  }

  /** `e` tells truly how `spec` compares the two rows: an exact field by the cells as they
      are, a normalised field by their foldings. */
  ghost predicate Tells(fold: Folding, headers: seq<string>, spec: FieldSpec, a: Row, b: Row, e: FieldComparison)
    requires |a| == |headers| && |b| == |headers|
  {
    exists u, v ::
      && Holds(fold, headers, a, spec.columnName, u) && Holds(fold, headers, b, spec.columnName, v)
      && (spec.comparisonType.Exact? ==> e.valueA == u && e.valueB == v && (e.matched <==> u == v))
      && (spec.comparisonType.NormalizedExact? ==>
            && e.valueA == fold.cell(u) && e.valueB == fold.cell(v)
            && (e.matched <==> fold.cell(u) == fold.cell(v)))
      && e.weight == spec.weight && e.contribution == if e.matched then spec.weight else 0.0
  }

  /** The entry of each name tells of the last field of that name, and there are no others. */
  ghost predicate Audits(
    fold: Folding, headers: seq<string>, fields: seq<FieldSpec>, a: Row, b: Row, audit: map<string, FieldComparison>)
    requires |a| == |headers| && |b| == |headers|
  {
    && (forall name <- audit :: HasName(fields, name))
    && forall k :: 0 <= k < |fields| && LastOfName(fields, k) ==>
         && fields[k].columnName in audit
         && Tells(fold, headers, fields[k], a, b, audit[fields[k].columnName])
  }

  ghost predicate HasName(fields: seq<FieldSpec>, name: string) {
    exists k :: 0 <= k < |fields| && fields[k].columnName == name
  }

  ghost predicate LastOfName(fields: seq<FieldSpec>, k: nat)
    requires k < |fields|
  {
    forall l :: k < l < |fields| ==> fields[l].columnName != fields[k].columnName
  }

  function Sum(xs: seq<real>): real {
    if xs == [] then 0.0 else Sum(xs[..|xs| - 1]) + xs[|xs| - 1]
  }

  /** `score` is the weight of the fields whose entries in `entries` match, over the weight
      of all; 0 where nothing weighs anything. */
  ghost predicate ScoresBy(fields: seq<FieldSpec>, entries: seq<FieldComparison>, score: real)
    requires |entries| == |fields|
  {
    var all := Sum(seq(|fields|, k requires 0 <= k < |fields| => fields[k].weight));
    var matched := Sum(seq(|fields|, k requires 0 <= k < |fields| =>
                             if entries[k].matched then fields[k].weight else 0.0));
    score == if all > 0.0 then matched / all else 0.0
  }

  ghost predicate Scores(
    fold: Folding, headers: seq<string>, fields: seq<FieldSpec>, a: Row, b: Row, score: real)
    requires |a| == |headers| && |b| == |headers|
  {
    exists entries: seq<FieldComparison> ::
      && |entries| == |fields|
      && (forall k :: 0 <= k < |fields| ==> Tells(fold, headers, fields[k], a, b, entries[k]))
      && ScoresBy(fields, entries, score)
  }

  lemma FieldAuditTells(fold: Folding, headers: seq<string>, spec: FieldSpec, a: Row, b: Row)
    requires |a| == |headers| && |b| == |headers|
    ensures Tells(fold, headers, spec, a, b, FieldAudit(fold, headers, spec, a, b))
    ensures FieldAudit(fold, headers, spec, a, b).matched <==> FieldMatches(fold, headers, spec, a, b)
  {
    var u, v := Cell(fold, headers, a, spec.columnName), Cell(fold, headers, b, spec.columnName);
    assert Holds(fold, headers, a, spec.columnName, u) && Holds(fold, headers, b, spec.columnName, v);
  }

  lemma {:induction false} ComparisonsAudit(
      fold: Folding, headers: seq<string>, fields: seq<FieldSpec>, a: Row, b: Row)
    requires |a| == |headers| && |b| == |headers|
    ensures Audits(fold, headers, fields, a, b, FieldComparisons(fold, headers, fields, a, b))
  {
    hide Tells, FieldAudit, HasName, LastOfName;
    if fields != [] {
      var n, front := |fields| - 1, fields[..|fields| - 1];
      ComparisonsAudit(fold, headers, front, a, b);
      FieldAuditTells(fold, headers, fields[n], a, b);
      var audit := FieldComparisons(fold, headers, fields, a, b);
      forall name <- audit
        ensures HasName(fields, name)
      {
        NamesSnoc(fields, name);
      }
      forall k | 0 <= k < |fields| && LastOfName(fields, k)
        ensures fields[k].columnName in audit && Tells(fold, headers, fields[k], a, b, audit[fields[k].columnName])
      {
        if k < n {
          LastOfNameFront(fields, k);
          assert front[k] == fields[k];
        }
      }
    }
  }

  lemma NamesSnoc(fields: seq<FieldSpec>, name: string)
    requires fields != []
    ensures HasName(fields, name) <==>
      HasName(fields[..|fields| - 1], name) || fields[|fields| - 1].columnName == name
  {
    var front := fields[..|fields| - 1];
    if HasName(front, name) {
      var k :| 0 <= k < |front| && front[k].columnName == name;
      assert fields[k].columnName == name;
    }
    if HasName(fields, name) {
      var k :| 0 <= k < |fields| && fields[k].columnName == name;
      assert k < |front| ==> front[k].columnName == name;
    }
  }

  lemma LastOfNameFront(fields: seq<FieldSpec>, k: nat)
    requires k < |fields| - 1 && LastOfName(fields, k)
    ensures LastOfName(fields[..|fields| - 1], k) && fields[|fields| - 1].columnName != fields[k].columnName
  {
  }

  lemma {:induction false} WeightsAreSums(
      fold: Folding, headers: seq<string>, fields: seq<FieldSpec>, a: Row, b: Row, entries: seq<FieldComparison>)
    requires |a| == |headers| && |b| == |headers| && |entries| == |fields|
    requires forall k :: 0 <= k < |fields| ==> (entries[k].matched <==> FieldMatches(fold, headers, fields[k], a, b))
    ensures TotalWeight(fields) == Sum(seq(|fields|, k requires 0 <= k < |fields| => fields[k].weight))
    ensures MatchedWeight(fold, headers, fields, a, b)
         == Sum(seq(|fields|, k requires 0 <= k < |fields| => if entries[k].matched then fields[k].weight else 0.0))
  {
    hide FieldMatches;
    if fields != [] {
      var n, front := |fields| - 1, fields[..|fields| - 1];
      WeightsAreSums(fold, headers, front, a, b, entries[..n]);
      var all := seq(|fields|, k requires 0 <= k < |fields| => fields[k].weight);
      var matched := seq(|fields|, k requires 0 <= k < |fields| =>
                           if entries[k].matched then fields[k].weight else 0.0);
      assert all[..n] == seq(n, k requires 0 <= k < n => front[k].weight);
      assert matched[..n] == seq(n, k requires 0 <= k < n => if entries[..n][k].matched then front[k].weight else 0.0);
    }
  }

  /** The score is what the comparisons of the fields add up to. */
  lemma ScoreMeaning(fold: Folding, headers: seq<string>, fields: seq<FieldSpec>, a: Row, b: Row)
    requires |a| == |headers| && |b| == |headers|
    ensures Scores(fold, headers, fields, a, b, Score(fold, headers, fields, a, b))
  {
    hide Tells, FieldAudit, FieldMatches;
    var entries := seq(|fields|, k requires 0 <= k < |fields| => FieldAudit(fold, headers, fields[k], a, b));
    forall k | 0 <= k < |fields|
      ensures Tells(fold, headers, fields[k], a, b, entries[k])
      ensures entries[k].matched <==> FieldMatches(fold, headers, fields[k], a, b)
    {
      FieldAuditTells(fold, headers, fields[k], a, b);
    }
    WeightsAreSums(fold, headers, fields, a, b, entries);
    assert ScoresBy(fields, entries, Score(fold, headers, fields, a, b));
  }

  method ComparePair(fold: Folding, a: Row, b: Row, headers: seq<string>, fields: seq<FieldSpec>)
    returns (audit: map<string, FieldComparison>, score: real)
    requires |a| == |headers| && |b| == |headers|
    ensures score == Score(fold, headers, fields, a, b)
    ensures audit == FieldComparisons(fold, headers, fields, a, b)
    ensures Audits(fold, headers, fields, a, b, audit) && Scores(fold, headers, fields, a, b, score)
  {
    hide Audits, Scores;
    ComparisonsAudit(fold, headers, fields, a, b);
    ScoreMeaning(fold, headers, fields, a, b);
    audit := map[];
    var totalWeight, matchedWeight := 0.0, 0.0;
    for k := 0 to |fields|
      invariant totalWeight == TotalWeight(fields[..k])
      invariant matchedWeight == MatchedWeight(fold, headers, fields[..k], a, b)
      invariant audit == FieldComparisons(fold, headers, fields[..k], a, b)
    {
      var spec := fields[k];
      var valueA := Cell(fold, headers, a, spec.columnName);
      var valueB := Cell(fold, headers, b, spec.columnName);
      var (matched, normA, normB) := CompareField(fold, valueA, valueB, spec.comparisonType);
      var contribution := if matched then spec.weight else 0.0;
      totalWeight := totalWeight + spec.weight;
      matchedWeight := matchedWeight + contribution;
      audit := audit[spec.columnName := FieldComparison(normA, normB, matched, spec.weight, contribution)];
      assert fields[..k + 1][..k] == fields[..k];
    }
    assert fields[..|fields|] == fields;
    score := if totalWeight > 0.0 then matchedWeight / totalWeight else 0.0;
  }

  ghost predicate PositiveWeights(fields: seq<FieldSpec>) {
    forall i :: 0 <= i < |fields| ==> fields[i].weight > 0.0
  }

  lemma {:induction false} WeightBounds(fold: Folding, headers: seq<string>, fields: seq<FieldSpec>, a: Row, b: Row)
    requires |a| == |headers| && |b| == |headers| && PositiveWeights(fields)
    ensures 0.0 <= MatchedWeight(fold, headers, fields, a, b) <= TotalWeight(fields)
    ensures fields != [] ==> TotalWeight(fields) > 0.0
  {
    if fields != [] {
      WeightBounds(fold, headers, fields[..|fields| - 1], a, b);
    }
  }

  lemma {:induction false} MatchedWeightSymmetric(
      fold: Folding, headers: seq<string>, fields: seq<FieldSpec>, a: Row, b: Row)
    requires |a| == |headers| && |b| == |headers|
    ensures MatchedWeight(fold, headers, fields, a, b) == MatchedWeight(fold, headers, fields, b, a)
  {
    if fields != [] {
      MatchedWeightSymmetric(fold, headers, fields[..|fields| - 1], a, b);
    }
  }

  lemma {:induction false} IdenticalRowsMatch(fold: Folding, headers: seq<string>, fields: seq<FieldSpec>, a: Row)
    requires |a| == |headers|
    ensures MatchedWeight(fold, headers, fields, a, a) == TotalWeight(fields)
  {
    if fields != [] {
      IdenticalRowsMatch(fold, headers, fields[..|fields| - 1], a);
    }
  }

  /** Comparing a score with a threshold, without the division. */
  lemma QuotientCompare(m: real, t: real, d: real)
    requires t > 0.0
    ensures m / t >= d <==> m >= d * t
  {
    var q := m / t;
    assert q * t == m;
    assert q >= d <==> (q - d) * t >= 0.0;
  }

  lemma ScoreReaches(fold: Folding, headers: seq<string>, fields: seq<FieldSpec>, a: Row, b: Row, d: real)
    requires |a| == |headers| && |b| == |headers| && TotalWeight(fields) > 0.0
    ensures Score(fold, headers, fields, a, b) >= d
       <==> MatchedWeight(fold, headers, fields, a, b) >= d * TotalWeight(fields)
  {
    QuotientCompare(MatchedWeight(fold, headers, fields, a, b), TotalWeight(fields), d);
  }

  lemma QuotientRange(m: real, t: real)
    requires 0.0 <= m <= t && t > 0.0
    ensures 0.0 <= m / t <= 1.0
    ensures m == t ==> m / t == 1.0
  {
  }

  lemma ScoreSymmetric(fold: Folding, headers: seq<string>, fields: seq<FieldSpec>, a: Row, b: Row)
    requires |a| == |headers| && |b| == |headers|
    ensures Score(fold, headers, fields, a, b) == Score(fold, headers, fields, b, a)
  {
    MatchedWeightSymmetric(fold, headers, fields, a, b);
  }

  /** Scores lie in [0, 1] and are 1 on identical rows. */
  lemma ScoreRange(fold: Folding, headers: seq<string>, fields: seq<FieldSpec>, a: Row, b: Row)
    requires |a| == |headers| && |b| == |headers| && PositiveWeights(fields)
    ensures 0.0 <= Score(fold, headers, fields, a, b) <= 1.0
    ensures fields != [] && a == b ==> Score(fold, headers, fields, a, b) == 1.0
  {
    WeightBounds(fold, headers, fields, a, b);
    if a == b {
      IdenticalRowsMatch(fold, headers, fields, a);
    }
    if fields != [] {
      QuotientRange(MatchedWeight(fold, headers, fields, a, b), TotalWeight(fields));
    }
  }

  // ----- the blocking field

  /** `best` is the earliest field of greatest weight. */
  ghost predicate Heaviest(fields: seq<FieldSpec>, best: nat) {
    && best < |fields|
    && (forall i :: 0 <= i < |fields| ==> fields[i].weight <= fields[best].weight)
    && (forall i :: 0 <= i < best ==> fields[i].weight < fields[best].weight)
  }

  function BlockingIndex(fields: seq<FieldSpec>): (best: nat)
    requires fields != []
    ensures Heaviest(fields, best)
  {
    if |fields| == 1 then 0
    else
      var best := BlockingIndex(fields[..|fields| - 1]);
      if fields[|fields| - 1].weight > fields[best].weight then |fields| - 1 else best
  }

  method SelectBlockingField(fields: seq<FieldSpec>) returns (best: FieldSpec)
    requires fields != []
    ensures best == fields[BlockingIndex(fields)]
  {
    best := fields[0];
    ghost var at := 0;
    for k := 1 to |fields|
      invariant at < k && best == fields[at] && at == BlockingIndex(fields[..k])
    {
      assert fields[..k + 1][..k] == fields[..k];
      if fields[k].weight > best.weight {
        best, at := fields[k], k;
      }
    }
    assert fields[..|fields|] == fields;
  }

  function BlockingKey(fold: Folding, headers: seq<string>, fields: seq<FieldSpec>, row: Row): string
    requires |row| == |headers| && fields != []
  {
    fold.cell(Cell(fold, headers, row, fields[BlockingIndex(fields)].columnName))
  }

  // ----- what blocking costs

  /** The weight of the fields that read column `c`. */
  function ReadingWeight(fold: Folding, headers: seq<string>, fields: seq<FieldSpec>, c: nat): real {
    if fields == [] then 0.0
    else
      var last := fields[|fields| - 1];
      ReadingWeight(fold, headers, fields[..|fields| - 1], c)
      + if ColumnIndex(fold, headers, last.columnName) == Some(c) then last.weight else 0.0
  }

  function BlockingColumn(fold: Folding, headers: seq<string>, fields: seq<FieldSpec>): (c: Option<nat>)
    requires fields != []
    ensures c.Some? ==> c.value < |headers|
  {
    ColumnIndex(fold, headers, fields[BlockingIndex(fields)].columnName)
  }

  /** The fields that read the blocking column outweigh what a duplicate may leave
      unmatched, or there is no such column. */
  ghost predicate Dominates(fold: Folding, headers: seq<string>, fields: seq<FieldSpec>, threshold: real)
    requires fields != []
  {
    var c := BlockingColumn(fold, headers, fields);
    c.Some? ==> ReadingWeight(fold, headers, fields, c.value) > (1.0 - threshold) * TotalWeight(fields)
  }

  /** Rows whose keys differ match on no field that reads the column, whatever its
      comparison type. */
  lemma {:induction false} DifferenceCosts(
      fold: Folding, headers: seq<string>, fields: seq<FieldSpec>, a: Row, b: Row, c: nat)
    requires |a| == |headers| && |b| == |headers| && PositiveWeights(fields)
    requires c < |headers| && fold.cell(a[c]) != fold.cell(b[c])
    ensures MatchedWeight(fold, headers, fields, a, b) <= TotalWeight(fields) - ReadingWeight(fold, headers, fields, c)
  {
    if fields != [] {
      DifferenceCosts(fold, headers, fields[..|fields| - 1], a, b, c);
    }
  }

  /** Rows that differ in that column alone match on every other field. */
  lemma {:induction false} DifferenceCostsExactly(
      fold: Folding, headers: seq<string>, fields: seq<FieldSpec>, a: Row, b: Row, c: nat)
    requires |a| == |headers| && |b| == |headers|
    requires c < |headers| && fold.cell(a[c]) != fold.cell(b[c])
    requires forall k :: 0 <= k < |headers| && k != c ==> a[k] == b[k]
    ensures MatchedWeight(fold, headers, fields, a, b) == TotalWeight(fields) - ReadingWeight(fold, headers, fields, c)
  {
    if fields != [] {
      DifferenceCostsExactly(fold, headers, fields[..|fields| - 1], a, b, c);
    }
  }

  // ----- blocking loses no duplicate

  /** When the blocking column dominates, every pair that scores as a duplicate shares its
      blocking key. */
  lemma DominanceIsLossless(
      fold: Folding, headers: seq<string>, fields: seq<FieldSpec>, threshold: real, a: Row, b: Row)
    requires |a| == |headers| && |b| == |headers| && PositiveWeights(fields) && fields != []
    requires Dominates(fold, headers, fields, threshold)
    requires Score(fold, headers, fields, a, b) >= threshold
    ensures BlockingKey(fold, headers, fields, a) == BlockingKey(fold, headers, fields, b)
  {
    hide ReadingWeight, MatchedWeight, TotalWeight, Score;
    var c := BlockingColumn(fold, headers, fields);
    WeightBounds(fold, headers, fields, a, b);
    ScoreReaches(fold, headers, fields, a, b, threshold);
    if c.Some? && fold.cell(a[c.value]) != fold.cell(b[c.value]) {
      DifferenceCosts(fold, headers, fields, a, b, c.value);
    }
  }

  lemma {:induction false} ReadersAddUp(
      fold: Folding, headers: seq<string>, fields: seq<FieldSpec>, c: nat, i: nat)
    requires PositiveWeights(fields)
    ensures 0.0 <= ReadingWeight(fold, headers, fields, c)
    ensures i < |fields| && ColumnIndex(fold, headers, fields[i].columnName) == Some(c) ==>
              fields[i].weight <= ReadingWeight(fold, headers, fields, c)
  {
    if fields != [] {
      var front := fields[..|fields| - 1];
      ReadersAddUp(fold, headers, front, c, i);
      assert i < |front| ==> front[i] == fields[i];
    }
  }

  /** It is enough that the blocking field alone outweighs it. */
  lemma BlockingIsLossless(
      fold: Folding, headers: seq<string>, fields: seq<FieldSpec>, threshold: real, a: Row, b: Row)
    requires |a| == |headers| && |b| == |headers| && PositiveWeights(fields) && fields != []
    requires fields[BlockingIndex(fields)].weight > (1.0 - threshold) * TotalWeight(fields)
    requires Score(fold, headers, fields, a, b) >= threshold
    ensures BlockingKey(fold, headers, fields, a) == BlockingKey(fold, headers, fields, b)
  {
    hide ReadingWeight, Score, BlockingKey;
    var c := BlockingColumn(fold, headers, fields);
    if c.Some? {
      ReadersAddUp(fold, headers, fields, c.value, BlockingIndex(fields));
    }
    DominanceIsLossless(fold, headers, fields, threshold, a, b);
  }

  // ----- and dominance is needed

  /** Without dominance blocking does lose duplicates: whatever the values `u` and `v` with
      different non-blank keys, two rows that differ only there score as duplicates and
      fall in different blocks. */
  lemma BlockingLosesOtherwise(
      fold: Folding, headers: seq<string>, fields: seq<FieldSpec>, threshold: real, u: string, v: string)
    returns (a: Row, b: Row)
    requires PositiveWeights(fields) && fields != [] && !Dominates(fold, headers, fields, threshold)
    requires fold.cell(u) != fold.cell(v)
    requires fold.cell(u) != "" && fold.cell(v) != ""
    ensures |a| == |headers| && |b| == |headers|
    ensures Score(fold, headers, fields, a, b) >= threshold
    ensures BlockingKey(fold, headers, fields, a) != BlockingKey(fold, headers, fields, b)
    ensures BlockingKey(fold, headers, fields, a) != "" && BlockingKey(fold, headers, fields, b) != ""
  {
    hide ReadingWeight, MatchedWeight, TotalWeight, Score;
    var c := BlockingColumn(fold, headers, fields).value;
    a := seq(|headers|, _ => u);
    b := a[c := v];
    WeightBounds(fold, headers, fields, a, b);
    DifferenceCostsExactly(fold, headers, fields, a, b, c);
    ScoreReaches(fold, headers, fields, a, b, threshold);
  }

  /** Duplicates with non-blank keys always meet in a block. */
  ghost predicate Lossless(fold: Folding, headers: seq<string>, fields: seq<FieldSpec>, threshold: real)
    requires fields != []
  {
    forall a: Row, b: Row ::
      && |a| == |headers| && |b| == |headers|
      && Score(fold, headers, fields, a, b) >= threshold
      && BlockingKey(fold, headers, fields, a) != "" && BlockingKey(fold, headers, fields, b) != ""
      ==> BlockingKey(fold, headers, fields, a) == BlockingKey(fold, headers, fields, b)
  }

  /** The exact condition, where keys can differ at all: blocking is lossless if and only if
      the fields that read the blocking column together outweigh what a duplicate may leave
      unmatched, or the column is absent. */
  lemma LosslessIffDominant(
      fold: Folding, headers: seq<string>, fields: seq<FieldSpec>, threshold: real, u: string, v: string)
    requires PositiveWeights(fields) && fields != []
    requires fold.cell(u) != fold.cell(v) && fold.cell(u) != "" && fold.cell(v) != ""
    ensures Lossless(fold, headers, fields, threshold) <==> Dominates(fold, headers, fields, threshold)
  {
    hide Score, BlockingKey, Dominates, PositiveWeights;
    if Dominates(fold, headers, fields, threshold) {
      forall a: Row, b: Row |
        && |a| == |headers| && |b| == |headers|
        && Score(fold, headers, fields, a, b) >= threshold
        ensures BlockingKey(fold, headers, fields, a) == BlockingKey(fold, headers, fields, b)
      {
        DominanceIsLossless(fold, headers, fields, threshold, a, b);
      }
    } else {
      var a, b := BlockingLosesOtherwise(fold, headers, fields, threshold, u, v);
    }
  }
}

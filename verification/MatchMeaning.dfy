/** What a match result means, told from the cells themselves: which rows share a group,
    what a decision records and what the counters count. */
module MatchMeaning {
  import opened Wrappers
  import opened Sequences
  import opened Tables
  import opened Text
  import opened Graph
  import opened Comparison
  import opened MatchSpec
  import opened MatchRefinement
  import opened MatchAudit

  // ----- rule sets of one field

  /** The rule set has one field, and it reads column `c`. */
  ghost predicate OneField(inp: Input, ct: ComparisonType, c: nat) {
    && Scoring(inp) && |inp.rules.value.fields| == 1
    && var f := inp.rules.value.fields[0];
       && f.comparisonType == ct && f.weight > 0.0
       && ColumnIndex(inp.fold, inp.headers, f.columnName) == Some(c)
  }

  /** A pair must agree to count as a duplicate, and may. */
  ghost predicate UsualThreshold(inp: Input)
    requires Scoring(inp)
  {
    0.0 < inp.rules.value.duplicateThreshold <= 1.0
  }

  ghost predicate SameKey(inp: Input, c: nat, i: nat, j: nat)
    requires ValidInput(inp) && c < |inp.headers| && i < |inp.rows| && j < |inp.rows|
  {
    inp.fold.cell(inp.rows[i][c]) == inp.fold.cell(inp.rows[j][c]) != ""
  }

  /** The two cells agree as the comparison type has it. */
  ghost predicate SameCell(inp: Input, ct: ComparisonType, c: nat, i: nat, j: nat)
    requires ValidInput(inp) && c < |inp.headers| && i < |inp.rows| && j < |inp.rows|
  {
    match ct
    case Exact => inp.rows[i][c] == inp.rows[j][c]
    case NormalizedExact => inp.fold.cell(inp.rows[i][c]) == inp.fold.cell(inp.rows[j][c])
  }

  lemma OneFieldLinks(inp: Input, ct: ComparisonType, c: nat, i: nat, j: nat)
    requires ValidInput(inp) && OneField(inp, ct, c) && UsualThreshold(inp)
    requires i < |inp.rows| && j < |inp.rows| && c < |inp.headers|
    requires forall k :: k != "" ==> !Oversized(inp, k)
    ensures NaivelyLinked(inp, i, j) <==>
      inp.rows[i] == inp.rows[j] || (SameKey(inp, c, i, j) && SameCell(inp, ct, c, i, j))
  {
    hide ColumnIndex, Oversized;
    var fields, a, b := inp.rules.value.fields, inp.rows[i], inp.rows[j];
    var f := fields[0];
    assert fields[..0] == [];
    assert TotalWeight(fields) == TotalWeight(fields[..0]) + f.weight == f.weight;
    assert MatchedWeight(inp.fold, inp.headers, fields, a, b)
        == if SameCell(inp, ct, c, i, j) then f.weight else 0.0;
    QuotientRange(f.weight, f.weight);
    assert PairScore(inp, i, j) == if SameCell(inp, ct, c, i, j) then 1.0 else 0.0;
  }

  /** What is linked alike to everything is connected only to what it is linked to. */
  lemma ClassOfLinks(inp: Input, x: nat, y: nat, alike: set<nat>)
    requires ValidInput(inp) && x < |inp.rows| && y < |inp.rows|
    requires forall z: nat :: z in alike <==> z < |inp.rows| && NaivelyLinked(inp, x, z)
    requires forall i: nat, j: nat :: NaivelyLinked(inp, i, j) ==> (i in alike <==> j in alike)
    ensures Connected(NaiveEdges(inp), x, y) <==> NaivelyLinked(inp, x, y)
  {
    hide NaivelyLinked;
    var es := NaiveEdges(inp);
    if Connected(es, x, y) {
      LinkedToItself(inp, x);
      ClosedSet(es, alike, x, y);
    }
    if NaivelyLinked(inp, x, y) {
      LinkedInRange(inp, x, y);
      ConnectedEdge(es, x, y);
    }
  }

  lemma LinkedToItself(inp: Input, x: nat)
    requires ValidInput(inp) && x < |inp.rows|
    ensures NaivelyLinked(inp, x, x)
  {
  }

  lemma LinkedInRange(inp: Input, x: nat, y: nat)
    requires ValidInput(inp) && NaivelyLinked(inp, x, y)
    ensures (x, y) in NaiveEdges(inp)
  {
  }

  lemma OneFieldClasses(inp: Input, ct: ComparisonType, c: nat, x: nat, y: nat)
    requires ValidInput(inp) && OneField(inp, ct, c) && UsualThreshold(inp)
    requires x < |inp.rows| && y < |inp.rows| && c < |inp.headers|
    requires forall k :: k != "" ==> !Oversized(inp, k)
    ensures Connected(NaiveEdges(inp), x, y) <==>
      inp.rows[x] == inp.rows[y] || (SameKey(inp, c, x, y) && SameCell(inp, ct, c, x, y))
  {
    hide OneField, Oversized, NaiveEdges;
    var alike := set z: nat | z < |inp.rows| && NaivelyLinked(inp, x, z);
    forall i: nat, j: nat | NaivelyLinked(inp, i, j)
      ensures i in alike <==> j in alike
    {
      OneFieldLinks(inp, ct, c, i, j);
      OneFieldLinks(inp, ct, c, x, i);
      OneFieldLinks(inp, ct, c, x, j);
    }
    ClassOfLinks(inp, x, y, alike);
    OneFieldLinks(inp, ct, c, x, y);
  }

  /** With one normalised field and nothing skipped, two rows share a group exactly when
      they are identical or their cells fold to the same usable key. */
  lemma NormalizedFieldGroups(
      inp: Input, r: MatchResult, t: seq<Decision>, chains: nat, keys: seq<string>, c: nat, x: nat, y: nat)
    requires ValidInput(inp) && Correct(inp, r, t, chains, keys) && r.skipped == []
    requires OneField(inp, NormalizedExact, c) && UsualThreshold(inp) && c < |inp.headers|
    requires x < |inp.rows| && y < |inp.rows| && x != y
    ensures Grouped(r.groups, x, y) <==>
      || inp.rows[x] == inp.rows[y]
      || inp.fold.cell(inp.rows[x][c]) == inp.fold.cell(inp.rows[y][c]) != ""
  {
    hide Correct, Oversized;
    NoSkipNoOversize(inp, r, t, chains, keys);
    GroupsAreNaiveClasses(inp, r, t, chains, keys, x, y);
    OneFieldClasses(inp, NormalizedExact, c, x, y);
  }

  /** With one exact field the cells must be equal as they are, and hold a usable key. */
  lemma ExactFieldGroups(
      inp: Input, r: MatchResult, t: seq<Decision>, chains: nat, keys: seq<string>, c: nat, x: nat, y: nat)
    requires ValidInput(inp) && Correct(inp, r, t, chains, keys) && r.skipped == []
    requires OneField(inp, Exact, c) && UsualThreshold(inp) && c < |inp.headers|
    requires x < |inp.rows| && y < |inp.rows| && x != y
    ensures Grouped(r.groups, x, y) <==>
      || inp.rows[x] == inp.rows[y]
      || (inp.rows[x][c] == inp.rows[y][c] && inp.fold.cell(inp.rows[x][c]) != "")
  {
    hide Correct, Oversized;
    NoSkipNoOversize(inp, r, t, chains, keys);
    GroupsAreNaiveClasses(inp, r, t, chains, keys, x, y);
    OneFieldClasses(inp, Exact, c, x, y);
  }

  // ----- what a decision records

  /** A decision of the first stage: two identical rows, cell by cell, with certainty. */
  ghost predicate RecordsIdentity(inp: Input, d: Decision)
    requires ValidInput(inp)
  {
    && d.a < d.b < |inp.rows| && inp.rows[d.a] == inp.rows[d.b]
    && (forall c: nat :: c < d.b && d.a < c ==> inp.rows[c] != inp.rows[d.a])
    && d.blockingKey.None? && d.rule.ExactRow? && d.verdict.Duplicate?
    && d.score == d.threshold == d.confidence == 1.0
    && (forall name <- d.audit :: name in inp.headers)
    && forall c :: 0 <= c < |inp.headers| && LastOfHeader(inp.headers, c) ==>
         inp.headers[c] in d.audit
         && d.audit[inp.headers[c]] == FieldComparison(inp.rows[d.a][c], inp.rows[d.b][c], true, 1.0, 1.0)
  }

  /** A decision of the second stage: a pair of one block with its audit and its score,
      judged by the two thresholds. */
  ghost predicate RecordsComparison(inp: Input, d: Decision)
    requires ValidInput(inp) && Scoring(inp)
  {
    var rules := inp.rules.value;
    && d.a < d.b < |inp.rows| && inp.rows[d.a] != inp.rows[d.b]
    && d.blockingKey == Some(Key(inp, d.a)) == Some(Key(inp, d.b)) && d.blockingKey != Some("")
    && (d.rule.NormalizedExactRule? <==> |rules.fields| == 1) && (d.rule.CompositeWeighted? <==> |rules.fields| != 1)
    && Audits(inp.fold, inp.headers, rules.fields, inp.rows[d.a], inp.rows[d.b], d.audit)
    && Scores(inp.fold, inp.headers, rules.fields, inp.rows[d.a], inp.rows[d.b], d.score)
    && d.confidence == d.score && d.threshold == rules.duplicateThreshold
    && (d.verdict.Duplicate? <==> d.score >= rules.duplicateThreshold)
    && (d.verdict.Ambiguous? <==> rules.reviewThreshold <= d.score < rules.duplicateThreshold)
  }

  /** No later column has the same header. */
  ghost predicate LastOfHeader(headers: seq<string>, c: nat)
    requires c < |headers|
  {
    forall l :: c < l < |headers| ==> headers[l] != headers[c]
  }

  lemma LastOfHeaderFront(headers: seq<string>, c: nat)
    requires c < |headers| - 1 && LastOfHeader(headers, c)
    ensures LastOfHeader(headers[..|headers| - 1], c) && headers[|headers| - 1] != headers[c]
  {
  }

  lemma {:induction false} ExactAuditMeaning(headers: seq<string>, a: Row, b: Row)
    requires |a| == |headers| && |b| == |headers|
    ensures forall name <- ExactAudit(headers, a, b) :: name in headers
    ensures forall c :: 0 <= c < |headers| && LastOfHeader(headers, c) ==>
      headers[c] in ExactAudit(headers, a, b)
      && ExactAudit(headers, a, b)[headers[c]] == FieldComparison(a[c], b[c], true, 1.0, 1.0)
  {
    hide LastOfHeader;
    if headers != [] {
      var n, audit := |headers| - 1, ExactAudit(headers, a, b);
      var before := ExactAudit(headers[..n], a[..n], b[..n]);
      assert audit == before[headers[n] := FieldComparison(a[n], b[n], true, 1.0, 1.0)];
      ExactAuditMeaning(headers[..n], a[..n], b[..n]);
      hide ExactAudit;
      forall name <- audit
        ensures name in headers
      {
        if name in before {
          assert name in headers[..n];
        }
      }
      forall c | 0 <= c < |headers| && LastOfHeader(headers, c)
        ensures headers[c] in audit && audit[headers[c]] == FieldComparison(a[c], b[c], true, 1.0, 1.0)
      {
        if c < n {
          LastOfHeaderFront(headers, c);
          assert headers[..n][c] == headers[c];
        }
      }
    }
  }

  /** Every decision of the full list is one or the other. */
  lemma DecisionsRecordTruly(inp: Input, t: seq<Decision>, chains: nat, k: nat)
    requires ValidInput(inp) && FullTrace(inp, t, chains) && k < |t|
    ensures k < chains ==> RecordsIdentity(inp, t[k])
    ensures k >= chains ==> Scoring(inp) && RecordsComparison(inp, t[k])
  {
    hide Score, FieldComparisons, Audits, Scores, ExactAudit, Key;
    var a, b := t[k].a, t[k].b;
    DecisionOrdered(inp, t, chains, k);
    if k < chains {
      assert t[k] == t[..chains][k];
      ExactAuditMeaning(inp.headers, inp.rows[a], inp.rows[b]);
    } else {
      assert t[k] == t[chains..][k - chains];
      ComparisonsAudit(inp.fold, inp.headers, inp.rules.value.fields, inp.rows[a], inp.rows[b]);
      ScoreMeaning(inp.fold, inp.headers, inp.rules.value.fields, inp.rows[a], inp.rows[b]);
    }
  }

  /** A pair of distinct rows that meet in a kept block is decided on exactly when its
      score reaches one of the thresholds, and is ambiguous exactly between them. */
  lemma ReportedExactly(inp: Input, t: seq<Decision>, chains: nat, a: nat, b: nat)
    requires ValidInput(inp) && FullTrace(inp, t, chains) && Scoring(inp) && Compared(inp, a, b)
    ensures var rules, score := inp.rules.value, PairScore(inp, a, b);
            && ((exists k :: 0 <= k < |t| && t[k].a == a && t[k].b == b && t[k].verdict.Duplicate?)
                <==> score >= rules.duplicateThreshold)
            && ((exists k :: 0 <= k < |t| && t[k].a == a && t[k].b == b && t[k].verdict.Ambiguous?)
                <==> rules.reviewThreshold <= score < rules.duplicateThreshold)
  {
    hide Score, FieldComparisons, Key;
    var d, rules, score := ScoredDecision(inp, a, b), inp.rules.value, PairScore(inp, a, b);
    if Reported(inp, score) {
      ScoredDecisionPresent(inp, t, chains, a, b);
      var k :| 0 <= k < |t| && t[k] == d;
    }
    forall k | 0 <= k < |t| && t[k].a == a && t[k].b == b
      ensures t[k] == d && Reported(inp, score)
    {
      DecisionOrdered(inp, t, chains, k);
      DistinctFirsts(inp, a, b);
      assert t[k] == t[chains..][k - chains];
    }
  }

  lemma DistinctFirsts(inp: Input, a: nat, b: nat)
    requires ValidInput(inp) && Scoring(inp) && Compared(inp, a, b)
    ensures inp.rows[a] != inp.rows[b]
  {
  }

  // ----- what is stored and counted

  /** The stored list is the first decisions of the full one, up to the cap, changed in
      nothing but the group they point at. */
  lemma StoredAreFirst(inp: Input, r: MatchResult, t: seq<Decision>, chains: nat, keys: seq<string>)
    requires ValidInput(inp) && Correct(inp, r, t, chains, keys)
    ensures |r.decisions| == if |t| < inp.limits.maxPersistedDecisions then |t| else inp.limits.maxPersistedDecisions
    ensures forall k :: 0 <= k < |r.decisions| ==> r.decisions[k].(groupIndex := t[k].groupIndex) == t[k]
  {
    hide FullTrace, IsGrouping, Tallied, SkipRecords, KeptPairs, BlockKeys;
  }

  lemma {:induction false} VerdictsCounted(t: seq<Decision>, v: Verdict)
    ensures CountVerdict(t, v) == |Places(t, (d: Decision) => d.verdict == v)|
  {
    var P := (d: Decision) => d.verdict == v;
    if t == [] {
      assert Places(t, P) == {};
    } else {
      var front := t[..|t| - 1];
      assert t == front + [t[|t| - 1]];
      VerdictsCounted(front, v);
      PlacesSnoc(front, t[|t| - 1], P);
    }
  }

  lemma {:induction false} RulesCounted(t: seq<Decision>, r: RuleName)
    ensures CountRule(t, r) == |Places(t, (d: Decision) => d.rule == r)|
  {
    var P := (d: Decision) => d.rule == r;
    if t == [] {
      assert Places(t, P) == {};
    } else {
      var front := t[..|t| - 1];
      assert t == front + [t[|t| - 1]];
      RulesCounted(front, r);
      PlacesSnoc(front, t[|t| - 1], P);
    }
  }

  /** The counters count the decisions of the full list, whatever the cap. */
  lemma CountersCount(inp: Input, r: MatchResult, t: seq<Decision>, chains: nat, keys: seq<string>)
    requires ValidInput(inp) && Correct(inp, r, t, chains, keys)
    ensures r.duplicatePairs == |Places(t, (d: Decision) => d.verdict == Duplicate)|
    ensures r.ambiguousPairs == |Places(t, (d: Decision) => d.verdict == Ambiguous)|
    ensures forall rule <- r.byRule :: r.byRule[rule] == |Places(t, (d: Decision) => d.rule == rule)| > 0
    ensures forall k :: 0 <= k < |t| ==> t[k].rule in r.byRule
  {
    hide FullTrace, IsGrouping, SkipRecords, KeptPairs, BlockKeys, Wired, CountVerdict, CountRule;
    VerdictsCounted(t, Duplicate);
    VerdictsCounted(t, Ambiguous);
    forall rule: RuleName
      ensures CountRule(t, rule) == |Places(t, (d: Decision) => d.rule == rule)|
    {
      RulesCounted(t, rule);
    }
    forall k | 0 <= k < |t|
      ensures t[k].rule in r.byRule
    {
      assert k in Places(t, (d: Decision) => d.rule == t[k].rule);
    }
  }

  // ----- comparisons

  /** The pairs of `s`, each once. */
  ghost function PairsOf(s: set<nat>): set<(nat, nat)> {
    set a: nat, b: nat | a in s && b in s && a < b :: (a, b)
  }

  ghost function With(s: set<nat>, m: nat): set<(nat, nat)> {
    set a: nat | a in s :: (a, m)
  }

  lemma {:induction false} WithSize(s: set<nat>, m: nat)
    ensures |With(s, m)| == |s|
    decreases s
  {
    if s == {} {
      assert With(s, m) == {};
    } else {
      var x :| x in s;
      WithSize(s - {x}, m);
      assert (x, m) !in With(s - {x}, m);
      assert With(s, m) == With(s - {x}, m) + {(x, m)};
    }
  }

  lemma {:induction false} Greatest(s: set<nat>) returns (m: nat)
    requires s != {}
    ensures m in s && forall x <- s :: x <= m
    decreases s
  {
    m :| m in s;
    var others := s - {m};
    assert forall x <- s :: x == m || x in others;
    if others != {} {
      var rest := Greatest(others);
      m := if rest > m then rest else m;
    }
  }

  lemma {:induction false} PairsOfSize(s: set<nat>)
    ensures 2 * |PairsOf(s)| == |s| * (|s| - 1)
    decreases s
  {
    hide With;
    if s == {} {
      assert PairsOf(s) == {};
    } else {
      var m := Greatest(s);
      var rest := s - {m};
      PairsOfSize(rest);
      WithSize(rest, m);
      WithGreatest(rest, m);
      assert s == rest + {m};
      Triangle(|rest|);
    }
  }

  lemma WithGreatest(s: set<nat>, m: nat)
    requires forall x <- s :: x < m
    ensures |PairsOf(s + {m})| == |PairsOf(s)| + |With(s, m)|
  {
    var before, added := PairsOf(s), With(s, m);
    forall q
      ensures q in PairsOf(s + {m}) <==> q in before + added
    {
    }
    assert PairsOf(s + {m}) == before + added;
    assert before !! added;
  }

  lemma Triangle(n: nat)
    ensures n * (n - 1) + 2 * n == (n + 1) * n
  {
  }

  /** The pairs of distinct rows that meet in one of the kept blocks of `keys`. */
  ghost function ComparedUnder(inp: Input, keys: seq<string>): set<(nat, nat)>
    requires ValidInput(inp) && Scoring(inp)
  {
    set a: nat, b: nat | a < |inp.rows| && b < |inp.rows| && Compared(inp, a, b) && Key(inp, a) in keys :: (a, b)
  }

  lemma ComparedInBlock(inp: Input, keys: seq<string>, k: string)
    requires ValidInput(inp) && Scoring(inp) && SortedKeys(keys + [k]) && k != ""
    ensures ComparedUnder(inp, keys + [k])
         == ComparedUnder(inp, keys) + if Oversized(inp, k) then {} else PairsOf(Block(inp, k))
    ensures ComparedUnder(inp, keys) !! PairsOf(Block(inp, k))
  {
    hide Oversized, Key;
    assert k !in keys by {
      if k in keys {
        var i :| 0 <= i < |keys| && keys[i] == k;
        assert (keys + [k])[i] == k && (keys + [k])[|keys|] == k;
        LessIrreflexive(k);
      }
    }
    forall a: nat, b: nat
      ensures (a, b) in ComparedUnder(inp, keys + [k]) <==>
        (a, b) in ComparedUnder(inp, keys) || (!Oversized(inp, k) && (a, b) in PairsOf(Block(inp, k)))
    {
    }
  }

  /** The second stage makes one comparison for each such pair. */
  lemma {:induction false} KeptPairsCounted(inp: Input, keys: seq<string>)
    requires ValidInput(inp) && Scoring(inp) && SortedKeys(keys) && "" !in keys
    ensures KeptPairs(inp, keys) == |ComparedUnder(inp, keys)|
  {
    hide Oversized, Key, Compared;
    if keys == [] {
      assert ComparedUnder(inp, keys) == {};
    } else {
      var front, k := keys[..|keys| - 1], keys[|keys| - 1];
      assert keys == front + [k];
      KeptPairsCounted(inp, front);
      ComparedInBlock(inp, front, k);
      PairsOfSize(Block(inp, k));
    }
  }

  /** The comparisons of a match are one for each row that repeats an earlier one, and one
      for each pair of distinct rows that meet in a kept block. */
  lemma ComparisonsCounted(inp: Input, r: MatchResult, t: seq<Decision>, chains: nat, keys: seq<string>)
    requires ValidInput(inp) && Correct(inp, r, t, chains, keys) && Scoring(inp)
    ensures var pairs := set a: nat, b: nat | a < |inp.rows| && b < |inp.rows| && Compared(inp, a, b) :: (a, b);
            r.totalComparisons == |inp.rows| - |Firsts(inp.rows)| + |pairs|
  {
    hide FullTrace, IsGrouping, SkipRecords, KeptPairs, Wired, Tallied, Oversized, Key;
    var pairs := set a: nat, b: nat | a < |inp.rows| && b < |inp.rows| && Compared(inp, a, b) :: (a, b);
    FirstsCount(inp.rows);
    KeptPairsCounted(inp, keys);
    forall a: nat, b: nat | Compared(inp, a, b)
      ensures Key(inp, a) in keys
    {
      assert a in Block(inp, Key(inp, a));
    }
    assert pairs == ComparedUnder(inp, keys);
  }

  // ----- keys, order and skipped blocks

  /** The field `best` is the earliest heaviest, and `value` is what it reads in row `i`. */
  ghost predicate ReadByHeaviest(inp: Input, i: nat, best: nat, value: string)
    requires ValidInput(inp) && Scoring(inp) && i < |inp.rows|
  {
    var fields := inp.rules.value.fields;
    Heaviest(fields, best) && Holds(inp.fold, inp.headers, inp.rows[i], fields[best].columnName, value)
  }

  /** A row's key is the folding of what the earliest heaviest field reads. */
  lemma KeyMeaning(inp: Input, i: nat)
    requires ValidInput(inp) && Scoring(inp) && i < |inp.rows|
    ensures exists best: nat, value :: ReadByHeaviest(inp, i, best, value) && Key(inp, i) == inp.fold.cell(value)
  {
    var fields := inp.rules.value.fields;
    var best := BlockingIndex(fields);
    assert ReadByHeaviest(inp, i, best, Cell(inp.fold, inp.headers, inp.rows[i], fields[best].columnName));
  }

  /** Decisions come in a fixed order: chains by their first row and along each chain,
      then pairs by key in code-point order, then by their rows. */
  lemma DecisionsInOrder(inp: Input, t: seq<Decision>, chains: nat, k: nat, l: nat)
    requires ValidInput(inp) && FullTrace(inp, t, chains) && k < l < |t|
    ensures t[k].a < |inp.rows| && t[l].a < |inp.rows|
    ensures l < chains ==>
      var p, q := Rep(inp.rows, t[k].a), Rep(inp.rows, t[l].a); p < q || (p == q && t[k].a < t[l].a)
    ensures k >= chains ==>
      && Scoring(inp)
      && var p, q := Key(inp, t[k].a), Key(inp, t[l].a);
         Less(p, q) || (p == q && (t[k].a < t[l].a || (t[k].a == t[l].a && t[k].b < t[l].b)))
  {
    hide Score, FieldComparisons, Key, ExactAudit;
    DecisionOrdered(inp, t, chains, k);
    DecisionOrdered(inp, t, chains, l);
    if l < chains {
      assert t[k] == t[..chains][k] && t[l] == t[..chains][l];
    } else if k >= chains {
      assert t[k] == t[chains..][k - chains] && t[l] == t[chains..][l - chains];
    }
  }

  /** The distinct rows with a given key, by their first occurrence. */
  ghost function RowsWithKey(inp: Input, key: string): set<nat>
    requires ValidInput(inp) && Scoring(inp)
  {
    set i: nat | i < |inp.rows| && (forall j :: 0 <= j < i ==> inp.rows[j] != inp.rows[i]) && Key(inp, i) == key
  }

  /** `s` records a block too large to compare: its size and its lowest rows. */
  ghost predicate RecordsSkip(inp: Input, s: SkippedBlock)
    requires ValidInput(inp) && Scoring(inp)
  {
    var rows := RowsWithKey(inp, s.key);
    && s.key != "" && s.size == |rows| > inp.limits.maxBlockSize
    && Ascending(s.sample) && (forall i :: 0 <= i < |s.sample| ==> s.sample[i] in rows)
    && |s.sample| == (if |rows| < inp.limits.maxSkippedRowSample then |rows| else inp.limits.maxSkippedRowSample)
    && forall x, i | x in rows && x !in s.sample && 0 <= i < |s.sample| :: s.sample[i] < x
  }

  lemma BlockIsRowsWithKey(inp: Input, k: string)
    requires ValidInput(inp) && Scoring(inp)
    ensures Block(inp, k) == RowsWithKey(inp, k)
  {
    hide Key;
  }

  ghost predicate ListsSkips(inp: Input, keys: seq<string>, skipped: seq<SkippedBlock>)
    requires ValidInput(inp) && Scoring(inp)
  {
    && (forall i :: 0 <= i < |skipped| ==> skipped[i].key in keys && RecordsSkip(inp, skipped[i]))
    && (forall k | k in keys && |RowsWithKey(inp, k)| > inp.limits.maxBlockSize ::
          exists i :: 0 <= i < |skipped| && skipped[i].key == k)
  }

  lemma {:induction false} SkipsListed(inp: Input, keys: seq<string>, skipped: seq<SkippedBlock>)
    requires ValidInput(inp) && Scoring(inp) && SkipRecords(inp, keys, skipped) && "" !in keys
    ensures ListsSkips(inp, keys, skipped)
  {
    hide RowsWithKey, Block, RecordsSkip, SkipRecord;
    if keys != [] {
      var front, k := keys[..|keys| - 1], keys[|keys| - 1];
      assert keys == front + [k];
      BlockIsRowsWithKey(inp, k);
      if Oversized(inp, k) {
        var n := |skipped| - 1;
        SkipsListed(inp, front, skipped[..n]);
        SkipTold(inp, k, skipped[n]);
        forall key | key in keys && |RowsWithKey(inp, key)| > inp.limits.maxBlockSize
          ensures exists i :: 0 <= i < |skipped| && skipped[i].key == key
        {
          if key in front {
            var i :| 0 <= i < n && skipped[..n][i].key == key;
            assert skipped[i].key == key;
          }
        }
        assert forall i :: 0 <= i < n ==> skipped[..n][i] == skipped[i];
      } else {
        SkipsListed(inp, front, skipped);
      }
    }
  }

  lemma SkipTold(inp: Input, k: string, s: SkippedBlock)
    requires ValidInput(inp) && Scoring(inp) && SkipRecord(inp, k, s) && k != "" && Oversized(inp, k)
    ensures s.key == k && RecordsSkip(inp, s)
  {
    BlockIsRowsWithKey(inp, k);
    hide Block, RowsWithKey;
  }

  /** A block is skipped exactly when more distinct rows share its usable key than the limit
      allows, and is recorded with that number and its lowest rows. */
  lemma SkippedExactly(
      inp: Input, r: MatchResult, t: seq<Decision>, chains: nat, keys: seq<string>, key: string)
    requires ValidInput(inp) && Correct(inp, r, t, chains, keys) && Scoring(inp) && key != ""
    ensures forall i :: 0 <= i < |r.skipped| ==> RecordsSkip(inp, r.skipped[i])
    ensures (exists i :: 0 <= i < |r.skipped| && r.skipped[i].key == key)
       <==> |RowsWithKey(inp, key)| > inp.limits.maxBlockSize
  {
    hide FullTrace, IsGrouping, Wired, Tallied, SkipRecords, KeptPairs, RowsWithKey, Block;
    BlockIsRowsWithKey(inp, key);
    SkipsListed(inp, keys, r.skipped);
    if |RowsWithKey(inp, key)| > inp.limits.maxBlockSize {
      assert Block(inp, key) != {};
    }
  }
}

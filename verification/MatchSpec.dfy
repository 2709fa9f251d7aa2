/** What `match` has to produce: the simple relation the grouping must agree with,
    the full list of decisions in order, and the result as a function of them. */
module MatchSpec {
  import opened Wrappers
  import opened Tables
  import opened Text
  import opened Sequences
  import opened Graph
  import opened Comparison

  datatype RuleSet = RuleSet(duplicateThreshold: real, reviewThreshold: real, fields: seq<FieldSpec>)

  datatype Limits = Limits(maxBlockSize: nat, maxPersistedDecisions: nat, maxSkippedRowSample: nat)

  datatype Input = Input(
    fold: Folding, rows: seq<Row>, headers: seq<string>, rules: Option<RuleSet>, limits: Limits)

  datatype RuleName = ExactRow | NormalizedExactRule | CompositeWeighted

  datatype Verdict = Duplicate | Ambiguous

  datatype Decision = Decision(
    a: nat, b: nat, blockingKey: Option<string>, rule: RuleName,
    audit: map<string, FieldComparison>, score: real, threshold: real,
    verdict: Verdict, confidence: real, groupIndex: Option<nat>)

  datatype Group = Group(canonical: nat, members: seq<nat>, confidence: real)

  datatype SkippedBlock = SkippedBlock(key: string, size: nat, sample: seq<nat>)

  datatype MatchResult = MatchResult(
    groups: seq<Group>, decisions: seq<Decision>, skipped: seq<SkippedBlock>,
    rowCount: nat, totalComparisons: nat, duplicatePairs: nat, ambiguousPairs: nat,
    byRule: map<RuleName, nat>, confidence: real)

  /** The loader pads and truncates every row to the width of the header. */
  ghost predicate ValidInput(inp: Input) {
    Uniform(inp.rows, |inp.headers|)
  }

  /** Scoring runs only with a rule set that has a field. */
  predicate Scoring(inp: Input) {
    inp.rules.Some? && inp.rules.value.fields != []
  }

  // ----- identical rows

  /** `i` is the first row with its contents: the representative of its group. */
  ghost predicate IsFirst(rows: seq<Row>, i: nat)
    requires i < |rows|
  {
    forall j :: 0 <= j < i ==> rows[j] != rows[i]
  }

  ghost function Rep(rows: seq<Row>, i: nat): (r: nat)
    requires i < |rows|
    ensures r <= i && rows[r] == rows[i] && IsFirst(rows, r)
  {
    if IsFirst(rows, i) then i
    else
      var j :| 0 <= j < i && rows[j] == rows[i];
      Rep(rows, j)
  }

  lemma RepUnique(rows: seq<Row>, i: nat, r: nat)
    requires i < |rows| && r < |rows| && rows[r] == rows[i] && IsFirst(rows, r)
    ensures Rep(rows, i) == r
  {
  }

  /** `a` and `b` are consecutive occurrences of the same row. */
  ghost predicate ChainPair(rows: seq<Row>, a: nat, b: nat) {
    a < b < |rows| && rows[a] == rows[b] && forall c :: a < c < b ==> rows[c] != rows[a]
  }

  function ExactAudit(headers: seq<string>, a: Row, b: Row): map<string, FieldComparison>
    requires |a| == |headers| && |b| == |headers|
  {
    if headers == [] then map[]
    else
      var k := |headers| - 1;
      ExactAudit(headers[..k], a[..k], b[..k])[headers[k] := FieldComparison(a[k], b[k], true, 1.0, 1.0)]
  }

  ghost function ExactDecision(inp: Input, a: nat, b: nat): Decision
    requires ValidInput(inp) && a < |inp.rows| && b < |inp.rows|
  {
    Decision(a, b, None, ExactRow, ExactAudit(inp.headers, inp.rows[a], inp.rows[b]),
             1.0, 1.0, Duplicate, 1.0, None)
  }

  // ----- scored pairs

  function Key(inp: Input, i: nat): string
    requires Scoring(inp) && i < |inp.rows| && |inp.rows[i]| == |inp.headers|
  {
    BlockingKey(inp.fold, inp.headers, inp.rules.value.fields, inp.rows[i])
  }

  function PairScore(inp: Input, i: nat, j: nat): real
    requires Scoring(inp) && i < |inp.rows| && j < |inp.rows|
    requires |inp.rows[i]| == |inp.headers| && |inp.rows[j]| == |inp.headers|
  {
    Score(inp.fold, inp.headers, inp.rules.value.fields, inp.rows[i], inp.rows[j])
  }

  /** The representatives whose blocking key is `k`. */
  ghost function Block(inp: Input, k: string): set<nat>
    requires ValidInput(inp) && Scoring(inp)
  {
    set i | 0 <= i < |inp.rows| && IsFirst(inp.rows, i) && Key(inp, i) == k
  }

  ghost predicate Oversized(inp: Input, k: string)
    requires ValidInput(inp) && Scoring(inp)
  {
    |Block(inp, k)| > inp.limits.maxBlockSize
  }

  /** Two representatives that meet in a block that is kept. */
  ghost predicate Compared(inp: Input, a: nat, b: nat)
    requires ValidInput(inp) && Scoring(inp)
  {
    && a < b < |inp.rows|
    && IsFirst(inp.rows, a) && IsFirst(inp.rows, b)
    && Key(inp, a) == Key(inp, b) != ""
    && !Oversized(inp, Key(inp, a))
  }

  predicate Reported(inp: Input, score: real)
    requires Scoring(inp)
  {
    score >= inp.rules.value.duplicateThreshold || score >= inp.rules.value.reviewThreshold
  }

  function ScoredRule(inp: Input): RuleName
    requires Scoring(inp)
  {
    if |inp.rules.value.fields| == 1 then NormalizedExactRule else CompositeWeighted
  }

  function ScoredDecision(inp: Input, a: nat, b: nat): Decision
    requires Scoring(inp) && a < |inp.rows| && b < |inp.rows|
    requires |inp.rows[a]| == |inp.headers| && |inp.rows[b]| == |inp.headers|
  {
    var s := PairScore(inp, a, b);
    Decision(a, b, Some(Key(inp, a)), ScoredRule(inp),
             FieldComparisons(inp.fold, inp.headers, inp.rules.value.fields, inp.rows[a], inp.rows[b]),
             s, inp.rules.value.duplicateThreshold,
             if s >= inp.rules.value.duplicateThreshold then Duplicate else Ambiguous, s, None)
  }

  // ----- the simple relation

  /** The pairs a direct reading would link: identical rows, and rows that share a
      usable blocking key and score as duplicates.  It ranges over all rows. */
  ghost predicate NaivelyLinked(inp: Input, i: nat, j: nat)
    requires ValidInput(inp)
  {
    && i < |inp.rows| && j < |inp.rows|
    && (|| inp.rows[i] == inp.rows[j]
        || (&& Scoring(inp)
            && Key(inp, i) == Key(inp, j) != ""
            && !Oversized(inp, Key(inp, i))
            && PairScore(inp, i, j) >= inp.rules.value.duplicateThreshold))
  }

  ghost function NaiveEdges(inp: Input): set<Edge>
    requires ValidInput(inp)
  {
    set i, j | 0 <= i < |inp.rows| && 0 <= j < |inp.rows| && NaivelyLinked(inp, i, j) :: (i, j)
  }

  // ----- the decisions, in the order they are made

  /** Chain pairs are visited group by group, groups in order of first row. */
  ghost predicate ChainBefore(rows: seq<Row>, a: nat, rep: nat, bound: nat)
    requires a < |rows|
  {
    Rep(rows, a) < rep || (Rep(rows, a) == rep && a < bound)
  }

  /** `t` is exactly the chain decisions that come before (rep, bound), in order. */
  ghost predicate ChainTrace(inp: Input, t: seq<Decision>, rep: nat, bound: nat)
    requires ValidInput(inp)
  {
    && (forall k :: 0 <= k < |t| ==>
          && ChainPair(inp.rows, t[k].a, t[k].b)
          && ChainBefore(inp.rows, t[k].a, rep, bound)
          && t[k] == ExactDecision(inp, t[k].a, t[k].b))
    && (forall a, b :: ChainPair(inp.rows, a, b) && ChainBefore(inp.rows, a, rep, bound)
          ==> ExactDecision(inp, a, b) in t)
    && (forall k, l :: 0 <= k < l < |t| ==> ChainBefore(inp.rows, t[k].a, Rep(inp.rows, t[l].a), t[l].a))
  }

  /** Scored pairs are visited by key in code-point order, then by row indices. */
  predicate PairBefore(key: string, a: nat, b: nat, key': string, a': nat, b': nat) {
    Less(key, key') || (key == key' && (a < a' || (a == a' && b < b')))
  }

  /** How far the scan of the blocks has come: just before a pair, or past the last. */
  datatype Cursor = At(key: string, a: nat, b: nat) | End

  ghost predicate Passed(inp: Input, a: nat, b: nat, cur: Cursor)
    requires ValidInput(inp) && Scoring(inp) && a < |inp.rows|
  {
    cur.End? || PairBefore(Key(inp, a), a, b, cur.key, cur.a, cur.b)
  }

  /** `t` is exactly the reported decisions among the compared pairs already
      passed, in order. */
  ghost predicate ScoredTrace(inp: Input, t: seq<Decision>, cur: Cursor)
    requires ValidInput(inp) && Scoring(inp)
  {
    && (forall k :: 0 <= k < |t| ==>
          && Compared(inp, t[k].a, t[k].b) && Passed(inp, t[k].a, t[k].b, cur)
          && Reported(inp, PairScore(inp, t[k].a, t[k].b))
          && t[k] == ScoredDecision(inp, t[k].a, t[k].b))
    && (forall a, b :: Compared(inp, a, b) && Passed(inp, a, b, cur) && Reported(inp, PairScore(inp, a, b))
          ==> ScoredDecision(inp, a, b) in t)
    && (forall k, l :: 0 <= k < l < |t| ==>
          Passed(inp, t[k].a, t[k].b, At(Key(inp, t[l].a), t[l].a, t[l].b)))
  }

  /** The complete, uncapped list of decisions: the chains, then the scored pairs. */
  ghost predicate FullTrace(inp: Input, t: seq<Decision>, chains: nat)
    requires ValidInput(inp)
  {
    && chains <= |t|
    && ChainTrace(inp, t[..chains], |inp.rows|, 0)
    && (Scoring(inp) ==> ScoredTrace(inp, t[chains..], End))
    && (!Scoring(inp) ==> chains == |t|)
  }

  // ----- what the decisions determine

  /** The pairs united: the duplicate decisions and nothing else. */
  ghost function DuplicateEdges(t: seq<Decision>): set<Edge> {
    set d <- t | d.verdict.Duplicate? :: (d.a, d.b)
  }

  function CountVerdict(t: seq<Decision>, v: Verdict): nat {
    if t == [] then 0
    else CountVerdict(t[..|t| - 1], v) + if t[|t| - 1].verdict == v then 1 else 0
  }

  function CountRule(t: seq<Decision>, r: RuleName): nat {
    if t == [] then 0
    else CountRule(t[..|t| - 1], r) + if t[|t| - 1].rule == r then 1 else 0
  }

  function Capped(t: seq<Decision>, cap: nat): seq<Decision> {
    if |t| <= cap then t else t[..cap]
  }

  ghost function Min(x: nat, y: nat): nat {
    if x < y then x else y
  }

  /** The number of distinct rows. */
  ghost function DistinctRows(rows: seq<Row>): nat {
    |set r | r in rows|
  }

  // ----- the blocks, in order

  /** `keys` lists the non-blank keys of the representatives in code-point order. */
  ghost predicate BlockKeys(inp: Input, keys: seq<string>)
    requires ValidInput(inp) && Scoring(inp)
  {
    && SortedKeys(keys)
    && forall k :: k in keys <==> k != "" && Block(inp, k) != {}
  }

  /** Comparisons a block of this size costs. */
  function PairsIn(size: nat): nat {
    size * (size - 1) / 2
  }

  ghost function KeptPairs(inp: Input, keys: seq<string>): nat
    requires ValidInput(inp) && Scoring(inp)
  {
    if keys == [] then 0
    else
      var k := keys[|keys| - 1];
      KeptPairs(inp, keys[..|keys| - 1]) + if Oversized(inp, k) then 0 else PairsIn(|Block(inp, k)|)
  }

  /** A skipped block is recorded with its size and its lowest rows. */
  ghost predicate SkipRecord(inp: Input, k: string, s: SkippedBlock)
    requires ValidInput(inp) && Scoring(inp)
  {
    && s.key == k && s.size == |Block(inp, k)|
    && |s.sample| == Min(s.size, inp.limits.maxSkippedRowSample)
    && Ascending(s.sample)
    && (forall i :: 0 <= i < |s.sample| ==> s.sample[i] in Block(inp, k))
    && (forall x, i | x in Block(inp, k) && x !in s.sample && 0 <= i < |s.sample| :: s.sample[i] < x)
  }

  /** `skipped` records the oversized blocks among `keys`, in order. */
  ghost predicate SkipRecords(inp: Input, keys: seq<string>, skipped: seq<SkippedBlock>)
    requires ValidInput(inp) && Scoring(inp)
  {
    if keys == [] then skipped == []
    else
      var front, k := keys[..|keys| - 1], keys[|keys| - 1];
      if Oversized(inp, k) then
        && skipped != []
        && SkipRecord(inp, k, skipped[|skipped| - 1])
        && SkipRecords(inp, front, skipped[..|skipped| - 1])
      else SkipRecords(inp, front, skipped)
  }

  // ----- the groups

  /** `c` is the least confidence among the duplicate decisions inside `members`. */
  ghost predicate LeastConfidence(t: seq<Decision>, members: seq<nat>, c: real) {
    && (exists d :: d in t && d.verdict.Duplicate? && d.a in members && d.confidence == c)
    && (forall d :: d in t && d.verdict.Duplicate? && d.a in members ==> c <= d.confidence)
  }

  /** A group is a class of at least two rows, headed by its lowest. */
  ghost predicate IsGroup(n: nat, t: seq<Decision>, g: Group) {
    && |g.members| >= 2 && Ascending(g.members) && g.canonical == g.members[0]
    && (forall x: nat :: x in g.members <==> x < n && Connected(DuplicateEdges(t), g.canonical, x))
    && LeastConfidence(t, g.members, g.confidence)
  }

  ghost predicate IsGrouping(n: nat, t: seq<Decision>, groups: seq<Group>) {
    && (forall i :: 0 <= i < |groups| ==> IsGroup(n, t, groups[i]))
    && (forall i, j :: 0 <= i < j < |groups| ==> groups[i].canonical < groups[j].canonical)
    && (forall x: nat, y: nat :: x < n && y < n && x != y && Connected(DuplicateEdges(t), x, y)
          ==> exists i :: 0 <= i < |groups| && x in groups[i].members)
  }

  /** A kept duplicate decision points at the group of its rows; an ambiguous one at none. */
  ghost predicate Wired(t: seq<Decision>, groups: seq<Group>, decisions: seq<Decision>) {
    && |decisions| == |t|
    && forall k :: 0 <= k < |t| ==>
         && decisions[k] == t[k].(groupIndex := decisions[k].groupIndex)
         && (t[k].verdict.Ambiguous? ==> decisions[k].groupIndex.None?)
         && (t[k].verdict.Duplicate? ==>
               && decisions[k].groupIndex.Some?
               && decisions[k].groupIndex.value < |groups|
               && t[k].a in groups[decisions[k].groupIndex.value].members)
  }

  ghost predicate LeastGroupConfidence(groups: seq<Group>, c: real) {
    && (groups == [] ==> c == 1.0)
    && (groups != [] ==> exists i :: 0 <= i < |groups| && groups[i].confidence == c)
    && (forall i :: 0 <= i < |groups| ==> c <= groups[i].confidence)
  }

  /** Tallies are those of the full list of decisions, whatever the cap. */
  ghost predicate Tallied(t: seq<Decision>, duplicates: nat, ambiguous: nat, byRule: map<RuleName, nat>) {
    && duplicates == CountVerdict(t, Duplicate)
    && ambiguous == CountVerdict(t, Ambiguous)
    && forall r :: (r in byRule <==> CountRule(t, r) > 0) && (r in byRule ==> byRule[r] == CountRule(t, r))
  }

  /** `r` is the result that `match` owes on `inp`; `t` is the full list of decisions,
      `chains` of them exact, and `keys` the blocking keys. */
  ghost predicate Correct(inp: Input, r: MatchResult, t: seq<Decision>, chains: nat, keys: seq<string>)
    requires ValidInput(inp)
  {
    && FullTrace(inp, t, chains)
    && r.rowCount == |inp.rows|
    && IsGrouping(|inp.rows|, t, r.groups)
    && Wired(Capped(t, inp.limits.maxPersistedDecisions), r.groups, r.decisions)
    && Tallied(t, r.duplicatePairs, r.ambiguousPairs, r.byRule)
    && LeastGroupConfidence(r.groups, r.confidence)
    && DistinctRows(inp.rows) <= |inp.rows|
    && (!Scoring(inp) ==> r.skipped == [] && r.totalComparisons == |inp.rows| - DistinctRows(inp.rows))
    && (Scoring(inp) ==>
          && BlockKeys(inp, keys)
          && SkipRecords(inp, keys, r.skipped)
          && r.totalComparisons == |inp.rows| - DistinctRows(inp.rows) + KeptPairs(inp, keys))
  }

  /** The result owed on this input, with some list of decisions behind it. */
  ghost predicate Explained(inp: Input, r: MatchResult)
    requires ValidInput(inp)
  {
    exists t, chains, keys :: Correct(inp, r, t, chains, keys)
  }
}

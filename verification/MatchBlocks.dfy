/** Second stage of `match`: one representative per group of identical rows is put in
    a block by its key, and the pairs of each kept block are scored. */
module MatchBlocks {
  import opened Wrappers
  import opened Tables
  import opened Text
  import opened Sequences
  import opened Comparison
  import opened MatchSpec
  import opened MatchRecorder

  // ----- candidates

  /** `s` lists the representatives below `n`. */
  ghost predicate ListsFirsts(rows: seq<Row>, n: nat, s: seq<nat>)
    requires n <= |rows|
  {
    && Ascending(s)
    && (forall i :: 0 <= i < |s| ==> s[i] < n && IsFirst(rows, s[i]))
    && (forall x :: 0 <= x < n && IsFirst(rows, x) ==> x in s)
  }

  method CandidateRows(rows: seq<Row>, repFor: map<nat, nat>) returns (candidates: seq<nat>)
    requires forall x :: 0 <= x < |rows| ==> x in repFor || IsFirst(rows, x)
    requires forall x <- repFor :: x < |rows| && repFor[x] == Rep(rows, x) && repFor[x] in repFor
    ensures ListsFirsts(rows, |rows|, candidates)
  {
    hide ListsFirsts, Rep, IsFirst;
    candidates := [];
    var seen: set<nat> := {};
    NoneListed(rows);
    for idx := 0 to |rows|
      invariant ListsFirsts(rows, idx, candidates)
      invariant forall x :: 0 <= x < idx && x in repFor ==> repFor[x] in seen
      invariant forall r <- seen :: r < idx && r in repFor && repFor[r] == r
    {
      FirstIsOwnRep(rows, idx);
      FirstsNext(rows, idx, candidates);
      if idx !in repFor {
        candidates := candidates + [idx];
      } else if repFor[idx] !in seen {
        var rep := repFor[idx];
        RepOfRep(rows, idx);
        candidates := candidates + [rep];
        seen := seen + {rep};
      }
    }
  }

  lemma NoneListed(rows: seq<Row>)
    ensures ListsFirsts(rows, 0, [])
  {
  }

  lemma FirstIsOwnRep(rows: seq<Row>, i: nat)
    requires i < |rows|
    ensures IsFirst(rows, i) <==> Rep(rows, i) == i
    ensures Rep(rows, i) <= i
  {
  }

  lemma RepOfRep(rows: seq<Row>, i: nat)
    requires i < |rows|
    ensures Rep(rows, i) < |rows| && Rep(rows, Rep(rows, i)) == Rep(rows, i)
  {
    RepUnique(rows, Rep(rows, i), Rep(rows, i));
  }

  lemma FirstsNext(rows: seq<Row>, n: nat, s: seq<nat>)
    requires n < |rows| && ListsFirsts(rows, n, s)
    ensures ListsFirsts(rows, n + 1, if IsFirst(rows, n) then s + [n] else s)
  {
    hide IsFirst;
  }

  // ----- blocks

  /** `s` lists the rows of the block of `k` that are among `candidates`. */
  ghost predicate ListsBlock(inp: Input, candidates: seq<nat>, k: string, s: seq<nat>)
    requires ValidInput(inp) && Scoring(inp)
    requires forall i :: 0 <= i < |candidates| ==> candidates[i] < |inp.rows|
  {
    && Ascending(s) && |s| > 0
    && (forall i :: 0 <= i < |s| ==> s[i] in candidates && Key(inp, s[i]) == k)
    && (forall x <- candidates :: Key(inp, x) == k ==> x in s)
  }

  ghost predicate Blocks(inp: Input, candidates: seq<nat>, blocks: map<string, seq<nat>>)
    requires ValidInput(inp) && Scoring(inp)
    requires forall i :: 0 <= i < |candidates| ==> candidates[i] < |inp.rows|
  {
    && (forall k <- blocks :: k != "" && ListsBlock(inp, candidates, k, blocks[k]))
    && (forall x <- candidates :: Key(inp, x) != "" ==> Key(inp, x) in blocks)
  }

  lemma BlocksNext(inp: Input, candidates: seq<nat>, x: nat, blocks: map<string, seq<nat>>)
    requires ValidInput(inp) && Scoring(inp) && x < |inp.rows| && Ascending(candidates + [x])
    requires forall i :: 0 <= i < |candidates| ==> candidates[i] < |inp.rows|
    requires Blocks(inp, candidates, blocks)
    ensures var k := Key(inp, x);
            Blocks(inp, candidates + [x],
                   if k == "" then blocks
                   else blocks[k := (if k in blocks then blocks[k] else []) + [x]])
  {
    var k, more := Key(inp, x), candidates + [x];
    var next := if k == "" then blocks
                else blocks[k := (if k in blocks then blocks[k] else []) + [x]];
    assert forall y :: y in more <==> y in candidates || y == x;
    forall q <- next
      ensures q != "" && ListsBlock(inp, more, q, next[q])
    {
      if q in blocks {
        ListsBlockNext(inp, candidates, x, q, blocks[q]);
      }
    }
  }

  lemma ListsBlockNext(inp: Input, candidates: seq<nat>, x: nat, k: string, s: seq<nat>)
    requires ValidInput(inp) && Scoring(inp) && x < |inp.rows| && Ascending(candidates + [x])
    requires forall i :: 0 <= i < |candidates| ==> candidates[i] < |inp.rows|
    requires ListsBlock(inp, candidates, k, s)
    ensures ListsBlock(inp, candidates + [x], k, if Key(inp, x) == k then s + [x] else s)
  {
    forall i | 0 <= i < |s|
      ensures s[i] < x
    {
      var j :| 0 <= j < |candidates| && candidates[j] == s[i];
      assert (candidates + [x])[j] < (candidates + [x])[|candidates|];
    }
  }

  method BuildBlocks(inp: Input, candidates: seq<nat>) returns (blocks: map<string, seq<nat>>)
    requires ValidInput(inp) && Scoring(inp) && Ascending(candidates)
    requires forall i :: 0 <= i < |candidates| ==> candidates[i] < |inp.rows|
    ensures Blocks(inp, candidates, blocks)
  {
    hide ListsBlock;
    var field := SelectBlockingField(inp.rules.value.fields);
    blocks := map[];
    for i := 0 to |candidates|
      invariant Blocks(inp, candidates[..i], blocks)
    {
      var x := candidates[i];
      assert candidates[..i + 1] == candidates[..i] + [x];
      BlocksNext(inp, candidates[..i], x, blocks);
      var key := inp.fold.cell(Cell(inp.fold, inp.headers, inp.rows[x], field.columnName));
      assert key == Key(inp, x);
      if key == "" {
        continue;
      }
      blocks := blocks[key := (if key in blocks then blocks[key] else []) + [x]];
    }
    assert candidates[..|candidates|] == candidates;
  }

  // ----- scanning one block

  /** `s` is the block of `k`, ascending. */
  ghost predicate IsBlock(inp: Input, k: string, s: seq<nat>)
    requires ValidInput(inp) && Scoring(inp)
  {
    k != "" && |s| > 0 && Ascending(s) && forall x: nat :: x in s <==> x in Block(inp, k)
  }

  lemma BlocksAreBlocks(inp: Input, candidates: seq<nat>, blocks: map<string, seq<nat>>, k: string)
    requires ValidInput(inp) && Scoring(inp) && ListsFirsts(inp.rows, |inp.rows|, candidates)
    requires Blocks(inp, candidates, blocks)
    ensures k in blocks ==> IsBlock(inp, k, blocks[k]) && |blocks[k]| == |Block(inp, k)|
    ensures k in blocks <==> k != "" && Block(inp, k) != {}
  {
    if k in blocks {
      assert ListsBlock(inp, candidates, k, blocks[k]);
      forall x: nat
        ensures x in blocks[k] <==> x in Block(inp, k)
      {
      }
      AscendingSize(blocks[k]);
      assert Elements(blocks[k]) == Block(inp, k);
    }
    if k != "" && Block(inp, k) != {} {
      var x :| x in Block(inp, k);
      assert x in candidates;
    }
  }

  lemma ScoredAdvance(inp: Input, t: seq<Decision>, cur: Cursor, next: Cursor)
    requires ValidInput(inp) && Scoring(inp) && ScoredTrace(inp, t, cur)
    requires forall a, b :: Compared(inp, a, b) ==> (Passed(inp, a, b, cur) <==> Passed(inp, a, b, next))
    ensures ScoredTrace(inp, t, next)
  {
  }

  function Recorded(inp: Input, t: seq<Decision>, a: nat, b: nat): seq<Decision>
    requires Scoring(inp) && a < |inp.rows| && b < |inp.rows|
    requires |inp.rows[a]| == |inp.headers| && |inp.rows[b]| == |inp.headers|
  {
    if Reported(inp, PairScore(inp, a, b)) then t + [ScoredDecision(inp, a, b)] else t
  }

  /** Scoring the pair under the cursor and moving past it. */
  lemma ScoredStep(inp: Input, t: seq<Decision>, a: nat, b: nat, next: Cursor)
    requires ValidInput(inp) && Scoring(inp) && Compared(inp, a, b)
    requires ScoredTrace(inp, t, At(Key(inp, a), a, b))
    requires forall x, y :: Compared(inp, x, y) ==>
               (Passed(inp, x, y, next) <==> Passed(inp, x, y, At(Key(inp, a), a, b)) || (x == a && y == b))
    ensures ScoredTrace(inp, Recorded(inp, t, a, b), next)
  {
  }

  /** The cursor of the inner loops: before the pair (i, j), or past row i. */
  function Spot(k: string, s: seq<nat>, i: nat, j: nat): Cursor
    requires i < |s|
  {
    if j < |s| then At(k, s[i], s[j]) else At(k, s[i] + 1, 0)
  }

  lemma ComparedInBlock(inp: Input, k: string, s: seq<nat>, a: nat, b: nat) returns (i: nat, j: nat)
    requires ValidInput(inp) && Scoring(inp) && IsBlock(inp, k, s)
    requires Compared(inp, a, b) && Key(inp, a) == k
    ensures i < j < |s| && a == s[i] && b == s[j]
  {
    assert a in Block(inp, k) && b in Block(inp, k);
    i :| 0 <= i < |s| && s[i] == a;
    j :| 0 <= j < |s| && s[j] == b;
  }

  /** The cursor of the outer loop: all pairs of the first `i` rows are behind. */
  function RowSpot(k: string, s: seq<nat>, i: nat): Cursor
    requires i <= |s|
  {
    At(k, if i == 0 then 0 else s[i - 1] + 1, 0)
  }

  lemma SpotStart(inp: Input, k: string, s: seq<nat>, i: nat, a: nat, b: nat)
    requires ValidInput(inp) && Scoring(inp) && IsBlock(inp, k, s) && i < |s| && Compared(inp, a, b)
    ensures Passed(inp, a, b, RowSpot(k, s, i)) <==> Passed(inp, a, b, Spot(k, s, i, i + 1))
  {
    if Key(inp, a) == k {
      var _, _ := ComparedInBlock(inp, k, s, a, b);
    }
  }

  lemma SpotNext(inp: Input, k: string, s: seq<nat>, i: nat, j: nat, a: nat, b: nat)
    requires ValidInput(inp) && Scoring(inp) && IsBlock(inp, k, s) && i < j < |s| && Compared(inp, a, b)
    ensures Passed(inp, a, b, Spot(k, s, i, j + 1))
       <==> Passed(inp, a, b, At(k, s[i], s[j])) || (a == s[i] && b == s[j])
  {
    LessIrreflexive(k);
    assert s[i] in Block(inp, k);
    if Key(inp, a) == k {
      var p, q := ComparedInBlock(inp, k, s, a, b);
    }
  }

  lemma StartRow(inp: Input, t: seq<Decision>, k: string, s: seq<nat>, i: nat)
    requires ValidInput(inp) && Scoring(inp) && IsBlock(inp, k, s) && i < |s|
    requires ScoredTrace(inp, t, RowSpot(k, s, i))
    ensures ScoredTrace(inp, t, Spot(k, s, i, i + 1))
  {
    forall a: nat, b: nat | Compared(inp, a, b) {
      SpotStart(inp, k, s, i, a, b);
    }
    ScoredAdvance(inp, t, RowSpot(k, s, i), Spot(k, s, i, i + 1));
  }

  lemma NextPair(inp: Input, t: seq<Decision>, k: string, s: seq<nat>, i: nat, j: nat)
    requires ValidInput(inp) && Scoring(inp) && IsBlock(inp, k, s) && !Oversized(inp, k) && i < j < |s|
    requires ScoredTrace(inp, t, Spot(k, s, i, j))
    ensures Compared(inp, s[i], s[j]) && Key(inp, s[i]) == k
    ensures ScoredTrace(inp, Recorded(inp, t, s[i], s[j]), Spot(k, s, i, j + 1))
  {
    assert s[i] in Block(inp, k) && s[j] in Block(inp, k);
    forall a: nat, b: nat | Compared(inp, a, b) {
      SpotNext(inp, k, s, i, j, a, b);
    }
    ScoredStep(inp, t, s[i], s[j], Spot(k, s, i, j + 1));
  }

  lemma RecordedAfter(inp: Input, t: seq<Decision>, chains: nat, a: nat, b: nat)
    requires ValidInput(inp) && Scoring(inp) && a < |inp.rows| && b < |inp.rows| && chains <= |t|
    ensures chains <= |Recorded(inp, t, a, b)|
    ensures Recorded(inp, t, a, b)[..chains] == t[..chains]
    ensures Recorded(inp, t, a, b)[chains..] == Recorded(inp, t[chains..], a, b)
  {
  }

  /** Score one pair and act on the outcome. */
  method ScorePair(inp: Input, key: string, a: nat, b: nat, rec: Recorder)
    requires ValidInput(inp) && Scoring(inp) && Compared(inp, a, b) && key == Key(inp, a)
    requires rec.Valid() && rec.rowCount == |inp.rows|
    modifies rec, rec.uf
    ensures rec.Valid() && rec.trace == Recorded(inp, old(rec.trace), a, b)
  {
    hide Clusters, Tallied;
    var rules := inp.rules.value;
    var audit, score := ComparePair(inp.fold, inp.rows[a], inp.rows[b], inp.headers, rules.fields);
    var verdict: Verdict;
    if score >= rules.duplicateThreshold {
      verdict := Duplicate;
    } else if score >= rules.reviewThreshold {
      verdict := Ambiguous;
    } else {
      return;
    }
    rec.Decide(Decision(a, b, Some(key), ScoredRule(inp), audit, score, rules.duplicateThreshold,
                        verdict, score, None));
  }

  /** Pairs made by the first `i` rows of a block of `size`. */
  function PairsUpTo(size: nat, i: nat): nat
    requires i <= size
  {
    if i == 0 then 0 else PairsUpTo(size, i - 1) + (size - i)
  }

  lemma {:induction false} PairsClosedForm(size: nat, i: nat)
    requires i <= size
    ensures 2 * PairsUpTo(size, i) == i * (2 * size - i - 1)
  {
    if i > 0 {
      PairsClosedForm(size, i - 1);
    }
  }

  lemma PairsInBlock(size: nat)
    ensures PairsUpTo(size, size) == PairsIn(size)
  {
    PairsClosedForm(size, size);
    assert size * (2 * size - size - 1) == size * (size - 1);
  }

  method ScanBlock(inp: Input, k: string, s: seq<nat>, rec: Recorder, ghost chains: nat) returns (comparisons: nat)
    requires ValidInput(inp) && Scoring(inp) && IsBlock(inp, k, s) && !Oversized(inp, k)
    requires rec.Valid() && rec.rowCount == |inp.rows| && chains <= |rec.trace|
    requires ScoredTrace(inp, rec.trace[chains..], At(k, 0, 0))
    modifies rec, rec.uf
    ensures rec.Valid() && chains <= |rec.trace| && rec.trace[..chains] == old(rec.trace[..chains])
    ensures ScoredTrace(inp, rec.trace[chains..], RowSpot(k, s, |s|))
    ensures comparisons == PairsIn(|s|)
  {
    hide ScoredTrace, Clusters, Tallied, Compared, Block;
    comparisons := 0;
    for i := 0 to |s|
      invariant rec.Valid() && chains <= |rec.trace| && rec.trace[..chains] == old(rec.trace[..chains])
      invariant ScoredTrace(inp, rec.trace[chains..], RowSpot(k, s, i))
      invariant comparisons == PairsUpTo(|s|, i)
    {
      StartRow(inp, rec.trace[chains..], k, s, i);
      for j := i + 1 to |s|
        invariant rec.Valid() && chains <= |rec.trace| && rec.trace[..chains] == old(rec.trace[..chains])
        invariant ScoredTrace(inp, rec.trace[chains..], Spot(k, s, i, j))
        invariant comparisons == PairsUpTo(|s|, i) + (j - i - 1)
      {
        NextPair(inp, rec.trace[chains..], k, s, i, j);
        RecordedAfter(inp, rec.trace, chains, s[i], s[j]);
        comparisons := comparisons + 1;
        ScorePair(inp, k, s[i], s[j], rec);
      }
    }
    PairsInBlock(|s|);
  }

  // ----- scanning all blocks

  /** Before the i-th key, or past the last. */
  function KeySpot(keys: seq<string>, i: nat): Cursor
    requires i <= |keys|
  {
    if i < |keys| then At(keys[i], 0, 0) else End
  }

  /** Nothing is compared between the end of one block and the start of the next. */
  lemma BetweenBlocks(inp: Input, keys: seq<string>, i: nat, s: seq<nat>, a: nat, b: nat)
    requires ValidInput(inp) && Scoring(inp) && BlockKeys(inp, keys) && i < |keys|
    requires IsBlock(inp, keys[i], s) && Compared(inp, a, b)
    ensures Passed(inp, a, b, RowSpot(keys[i], s, |s|)) <==> Passed(inp, a, b, KeySpot(keys, i + 1))
    ensures Oversized(inp, keys[i]) ==>
              (Passed(inp, a, b, At(keys[i], 0, 0)) <==> Passed(inp, a, b, KeySpot(keys, i + 1)))
  {
    assert a in Block(inp, Key(inp, a));
    var q := Key(inp, a);
    var j :| 0 <= j < |keys| && keys[j] == q;
    if j == i {
      var _, _ := ComparedInBlock(inp, keys[i], s, a, b);
    }
    LessIrreflexive(q);
    if j > i + 1 {
      LessAsymmetric(keys[i + 1], q);
    }
    if j > i {
      LessAsymmetric(keys[i], q);
    }
  }

  lemma LessAsymmetric(a: string, b: string)
    requires Less(a, b)
    ensures !Less(b, a)
  {
    if Less(b, a) {
      LessTrans(a, b, a);
      LessIrreflexive(a);
    }
  }

  lemma NextBlock(inp: Input, t: seq<Decision>, keys: seq<string>, i: nat, s: seq<nat>)
    requires ValidInput(inp) && Scoring(inp) && BlockKeys(inp, keys) && i < |keys|
    requires IsBlock(inp, keys[i], s)
    requires ScoredTrace(inp, t, if Oversized(inp, keys[i]) then At(keys[i], 0, 0) else RowSpot(keys[i], s, |s|))
    ensures ScoredTrace(inp, t, KeySpot(keys, i + 1))
  {
    forall a: nat, b: nat | Compared(inp, a, b) {
      BetweenBlocks(inp, keys, i, s, a, b);
    }
    var cur := if Oversized(inp, keys[i]) then At(keys[i], 0, 0) else RowSpot(keys[i], s, |s|);
    ScoredAdvance(inp, t, cur, KeySpot(keys, i + 1));
  }

  lemma FirstBlock(inp: Input, keys: seq<string>)
    requires ValidInput(inp) && Scoring(inp) && BlockKeys(inp, keys)
    ensures ScoredTrace(inp, [], KeySpot(keys, 0))
  {
    forall a: nat, b: nat | Compared(inp, a, b)
      ensures !Passed(inp, a, b, KeySpot(keys, 0))
    {
      assert a in Block(inp, Key(inp, a));
      var j :| 0 <= j < |keys| && keys[j] == Key(inp, a);
      LessIrreflexive(keys[0]);
      if j > 0 {
        LessAsymmetric(keys[0], keys[j]);
      }
    }
  }

  lemma SampleIsLowest(inp: Input, k: string, s: seq<nat>)
    requires ValidInput(inp) && Scoring(inp) && IsBlock(inp, k, s) && |s| == |Block(inp, k)|
    ensures SkipRecord(inp, k, SkippedBlock(k, |s|, s[..Min(|s|, inp.limits.maxSkippedRowSample)]))
  {
    var m := Min(|s|, inp.limits.maxSkippedRowSample);
    assert forall j :: 0 <= j < m ==> s[j] in s[..m];
    forall x, i | x in Block(inp, k) && x !in s[..m] && 0 <= i < m
      ensures s[..m][i] < x
    {
      var j :| 0 <= j < |s| && s[j] == x;
    }
  }

  lemma SkipNext(inp: Input, keys: seq<string>, i: nat, skipped: seq<SkippedBlock>, s: SkippedBlock)
    requires ValidInput(inp) && Scoring(inp) && i < |keys| && SkipRecords(inp, keys[..i], skipped)
    requires Oversized(inp, keys[i]) ==> SkipRecord(inp, keys[i], s)
    ensures SkipRecords(inp, keys[..i + 1], if Oversized(inp, keys[i]) then skipped + [s] else skipped)
    ensures KeptPairs(inp, keys[..i + 1]) ==
            KeptPairs(inp, keys[..i]) + if Oversized(inp, keys[i]) then 0 else PairsIn(|Block(inp, keys[i])|)
  {
    assert keys[..i + 1][..i] == keys[..i];
    assert (skipped + [s])[..|skipped|] == skipped;
  }

  /** The whole second stage. */
  method ScoreBlocks(inp: Input, repFor: map<nat, nat>, rec: Recorder)
    returns (comparisons: nat, skipped: seq<SkippedBlock>, ghost keys: seq<string>)
    requires ValidInput(inp) && Scoring(inp) && rec.Valid() && rec.rowCount == |inp.rows|
    requires forall x :: 0 <= x < |inp.rows| ==> x in repFor || IsFirst(inp.rows, x)
    requires forall x <- repFor :: x < |inp.rows| && repFor[x] == Rep(inp.rows, x) && repFor[x] in repFor
    modifies rec, rec.uf
    ensures rec.Valid() && |rec.trace| >= old(|rec.trace|)
    ensures rec.trace[..old(|rec.trace|)] == old(rec.trace)
    ensures ScoredTrace(inp, rec.trace[old(|rec.trace|)..], End)
    ensures BlockKeys(inp, keys) && SkipRecords(inp, keys, skipped)
    ensures comparisons == KeptPairs(inp, keys)
  {
    hide ScoredTrace, Clusters, Tallied, SkipRecord, IsBlock, Blocks, IsFirst, Block, ListsFirsts;
    hide SkipRecords, KeptPairs;
    var candidates := CandidateRows(inp.rows, repFor);
    var blocks := PrepareBlocks(inp, candidates);
    var sorted := Sort(blocks.Keys);
    keys := sorted;
    comparisons, skipped := 0, [];
    ghost var chains := |rec.trace|;
    FirstBlock(inp, keys);
    StartSkips(inp, keys);
    assert rec.trace[chains..] == [];
    for i := 0 to |sorted|
      invariant rec.Valid() && chains <= |rec.trace| && rec.trace[..chains] == old(rec.trace)
      invariant ScoredTrace(inp, rec.trace[chains..], KeySpot(keys, i))
      invariant SkipRecords(inp, keys[..i], skipped) && comparisons == KeptPairs(inp, keys[..i])
    {
      var k := sorted[i];
      var s := blocks[k];
      if |s| > inp.limits.maxBlockSize {
        var sample := s[..if |s| < inp.limits.maxSkippedRowSample then |s| else inp.limits.maxSkippedRowSample];
        SampleIsLowest(inp, k, s);
        SkipNext(inp, keys, i, skipped, SkippedBlock(k, |s|, sample));
        skipped := skipped + [SkippedBlock(k, |s|, sample)];
      } else {
        SkipNext(inp, keys, i, skipped, SkippedBlock(k, |s|, []));
        var c := ScanBlock(inp, k, s, rec, chains);
        comparisons := comparisons + c;
      }
      NextBlock(inp, rec.trace[chains..], keys, i, s);
    }
    assert keys[..|keys|] == keys;
  }

  lemma StartSkips(inp: Input, keys: seq<string>)
    requires ValidInput(inp) && Scoring(inp)
    ensures SkipRecords(inp, keys[..0], []) && KeptPairs(inp, keys[..0]) == 0
  {
  }

  /** The dictionary of blocks, restated in terms of the blocks themselves. */
  method PrepareBlocks(inp: Input, candidates: seq<nat>) returns (blocks: map<string, seq<nat>>)
    requires ValidInput(inp) && Scoring(inp) && ListsFirsts(inp.rows, |inp.rows|, candidates)
    ensures forall k :: k in blocks <==> k != "" && Block(inp, k) != {}
    ensures forall k <- blocks :: IsBlock(inp, k, blocks[k]) && |blocks[k]| == |Block(inp, k)|
  {
    blocks := BuildBlocks(inp, candidates);
    forall k
      ensures k in blocks ==> IsBlock(inp, k, blocks[k]) && |blocks[k]| == |Block(inp, k)|
      ensures k in blocks <==> k != "" && Block(inp, k) != {}
    {
      BlocksAreBlocks(inp, candidates, blocks, k);
    }
  }
}

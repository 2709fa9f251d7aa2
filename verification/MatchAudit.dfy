/** What a correct result of `match` tells its reader: who is grouped with whom, how
    far confidences can be trusted, what the decisions reveal of the groups, and how
    much work was done. */
module MatchAudit {
  import opened Wrappers
  import opened Tables
  import opened Text
  import opened Sequences
  import opened Graph
  import opened Comparison
  import opened MatchSpec
  import opened MatchRefinement

  ghost predicate Grouped(groups: seq<Group>, x: nat, y: nat) {
    exists i :: 0 <= i < |groups| && x in groups[i].members && y in groups[i].members
  }

  lemma SameGroupConnected(n: nat, t: seq<Decision>, groups: seq<Group>, i: nat, x: nat, y: nat)
    requires IsGrouping(n, t, groups) && i < |groups|
    requires x in groups[i].members && y in groups[i].members
    ensures x < n && y < n && Connected(DuplicateEdges(t), x, y)
  {
    var es, c := DuplicateEdges(t), groups[i].canonical;
    assert IsGroup(n, t, groups[i]);
    ConnectedSym(es, c, x);
    ConnectedTrans(es, x, c, y);
  }

  lemma ConnectedSameGroup(n: nat, t: seq<Decision>, groups: seq<Group>, i: nat, x: nat, y: nat)
    requires IsGrouping(n, t, groups) && i < |groups| && x in groups[i].members && y < n
    requires Connected(DuplicateEdges(t), x, y)
    ensures y in groups[i].members
  {
    assert IsGroup(n, t, groups[i]);
    ConnectedTrans(DuplicateEdges(t), groups[i].canonical, x, y);
  }

  /** Two groups never share a row. */
  lemma GroupsDisjoint(n: nat, t: seq<Decision>, groups: seq<Group>, i: nat, j: nat, x: nat)
    requires IsGrouping(n, t, groups) && i < |groups| && j < |groups|
    requires x in groups[i].members && x in groups[j].members
    ensures i == j
  {
    assert IsGroup(n, t, groups[i]) && IsGroup(n, t, groups[j]);
    SameGroupConnected(n, t, groups, i, x, groups[i].canonical);
    SameGroupConnected(n, t, groups, j, x, groups[j].canonical);
    ConnectedSameGroup(n, t, groups, j, x, groups[i].canonical);
    ConnectedSameGroup(n, t, groups, i, x, groups[j].canonical);
    LowestIsLeast(groups[i].members, groups[j].canonical);
    LowestIsLeast(groups[j].members, groups[i].canonical);
  }

  lemma LowestIsLeast(s: seq<nat>, x: nat)
    requires Ascending(s) && x in s
    ensures s[0] <= x
  {
  }

  lemma GroupedIffConnected(n: nat, t: seq<Decision>, groups: seq<Group>, x: nat, y: nat)
    requires IsGrouping(n, t, groups) && x < n && y < n && x != y
    ensures Grouped(groups, x, y) <==> Connected(DuplicateEdges(t), x, y)
  {
    if Grouped(groups, x, y) {
      var i :| 0 <= i < |groups| && x in groups[i].members && y in groups[i].members;
      SameGroupConnected(n, t, groups, i, x, y);
    }
    if Connected(DuplicateEdges(t), x, y) {
      var i :| 0 <= i < |groups| && x in groups[i].members;
      ConnectedSameGroup(n, t, groups, i, x, y);
    }
  }

  /** Main result: two rows share a group exactly when the simple relation chains
      them together. */
  lemma GroupsAreNaiveClasses(
      inp: Input, r: MatchResult, t: seq<Decision>, chains: nat, keys: seq<string>, x: nat, y: nat)
    requires ValidInput(inp) && Correct(inp, r, t, chains, keys)
    requires x < |inp.rows| && y < |inp.rows| && x != y
    ensures Grouped(r.groups, x, y) <==> Connected(NaiveEdges(inp), x, y)
  {
    GroupedIffConnected(|inp.rows|, t, r.groups, x, y);
    MatchRefinesNaive(inp, t, chains, x, y);
  }

  lemma {:induction false} NothingSkipped(inp: Input, keys: seq<string>, k: string)
    requires ValidInput(inp) && Scoring(inp) && SkipRecords(inp, keys, []) && k in keys
    ensures !Oversized(inp, k)
  {
    if k != keys[|keys| - 1] {
      NothingSkipped(inp, keys[..|keys| - 1], k);
    }
  }

  /** An empty skip list means that no usable block was too large. */
  lemma NoSkipNoOversize(inp: Input, r: MatchResult, t: seq<Decision>, chains: nat, keys: seq<string>)
    requires ValidInput(inp) && Correct(inp, r, t, chains, keys) && Scoring(inp) && r.skipped == []
    ensures forall k :: k != "" ==> !Oversized(inp, k)
  {
    forall k | k != ""
      ensures !Oversized(inp, k)
    {
      if k in keys {
        NothingSkipped(inp, keys, k);
      } else {
        assert Block(inp, k) == {};
      }
    }
  }

  /** With nothing skipped and a dominant blocking field the groups are the classes of
      "identical, or scored as duplicates with non-blank blocking values". */
  lemma GroupsAreScoreClasses(
      inp: Input, r: MatchResult, t: seq<Decision>, chains: nat, keys: seq<string>, x: nat, y: nat)
    requires ValidInput(inp) && Correct(inp, r, t, chains, keys) && r.skipped == []
    requires Scoring(inp) ==> DominantField(inp)
    requires x < |inp.rows| && y < |inp.rows| && x != y
    ensures Grouped(r.groups, x, y) <==> Connected(ScoreEdges(inp), x, y)
  {
    if Scoring(inp) {
      NoSkipNoOversize(inp, r, t, chains, keys);
    }
    GroupedIffConnected(|inp.rows|, t, r.groups, x, y);
    BlockingInvisible(inp, t, chains, x, y);
  }

  /** Identical rows always share a group, whatever the limits. */
  lemma IdenticalRowsGrouped(
      inp: Input, r: MatchResult, t: seq<Decision>, chains: nat, keys: seq<string>, x: nat, y: nat)
    requires ValidInput(inp) && Correct(inp, r, t, chains, keys)
    requires x < |inp.rows| && y < |inp.rows| && x != y && inp.rows[x] == inp.rows[y]
    ensures Grouped(r.groups, x, y)
  {
    assert NaivelyLinked(inp, x, y) && (x, y) in NaiveEdges(inp);
    ConnectedEdge(NaiveEdges(inp), x, y);
    GroupsAreNaiveClasses(inp, r, t, chains, keys, x, y);
  }

  // ----- confidences

  lemma DecisionConfidence(inp: Input, t: seq<Decision>, chains: nat, d: Decision)
    requires ValidInput(inp) && FullTrace(inp, t, chains) && d in t && d.verdict.Duplicate?
    requires Scoring(inp) ==> PositiveWeights(inp.rules.value.fields) && inp.rules.value.duplicateThreshold <= 1.0
    ensures d.confidence <= 1.0
    ensures Scoring(inp) ==> inp.rules.value.duplicateThreshold <= d.confidence
    ensures !Scoring(inp) ==> d.confidence == 1.0
  {
    var k :| 0 <= k < |t| && t[k] == d;
    if k < chains {
      assert t[..chains][k] == d;
    } else {
      assert t[chains..][k - chains] == d;
      ScoreRange(inp.fold, inp.headers, inp.rules.value.fields, inp.rows[d.a], inp.rows[d.b]);
    }
  }

  /** Confidence never falls below the duplicate threshold, and is exactly 1 when only
      identical rows were grouped. */
  lemma ConfidenceFloor(inp: Input, r: MatchResult, t: seq<Decision>, chains: nat, keys: seq<string>, i: nat)
    requires ValidInput(inp) && Correct(inp, r, t, chains, keys) && i < |r.groups|
    requires Scoring(inp) ==> PositiveWeights(inp.rules.value.fields) && inp.rules.value.duplicateThreshold <= 1.0
    ensures r.groups[i].confidence <= 1.0
    ensures Scoring(inp) ==> inp.rules.value.duplicateThreshold <= r.confidence <= r.groups[i].confidence
    ensures !Scoring(inp) ==> r.groups[i].confidence == 1.0
  {
    var j :| 0 <= j < |r.groups| && r.groups[j].confidence == r.confidence;
    GroupConfidenceAttained(|inp.rows|, inp, t, chains, r.groups, i);
    GroupConfidenceAttained(|inp.rows|, inp, t, chains, r.groups, j);
  }

  lemma GroupConfidenceAttained(n: nat, inp: Input, t: seq<Decision>, chains: nat, groups: seq<Group>, i: nat)
    requires ValidInput(inp) && FullTrace(inp, t, chains) && IsGrouping(n, t, groups) && i < |groups|
    requires Scoring(inp) ==> PositiveWeights(inp.rules.value.fields) && inp.rules.value.duplicateThreshold <= 1.0
    ensures groups[i].confidence <= 1.0
    ensures Scoring(inp) ==> inp.rules.value.duplicateThreshold <= groups[i].confidence
    ensures !Scoring(inp) ==> groups[i].confidence == 1.0
  {
    assert IsGroup(n, t, groups[i]);
    var d :| d in t && d.verdict.Duplicate? && d.a in groups[i].members && d.confidence == groups[i].confidence;
    DecisionConfidence(inp, t, chains, d);
  }

  // ----- what the kept decisions say about a group

  /** The rows that decisions pointing at group `i` mention. */
  ghost predicate Named(decisions: seq<Decision>, i: nat, x: nat) {
    exists k :: 0 <= k < |decisions| && decisions[k].groupIndex == Some(i)
      && (decisions[k].a == x || decisions[k].b == x)
  }

  /** Whatever the cap dropped, a decision never names a row outside its group. */
  lemma NamedIsMember(
      inp: Input, r: MatchResult, t: seq<Decision>, chains: nat, keys: seq<string>, i: nat, x: nat)
    requires ValidInput(inp) && Correct(inp, r, t, chains, keys)
    requires i < |r.groups| && Named(r.decisions, i, x)
    ensures x in r.groups[i].members
  {
    var k :| 0 <= k < |r.decisions| && r.decisions[k].groupIndex == Some(i)
             && (r.decisions[k].a == x || r.decisions[k].b == x);
    var d := Capped(t, inp.limits.maxPersistedDecisions)[k];
    assert d == t[k];
    DecisionOrdered(inp, t, chains, k);
    DuplicateIsEdge(t, d);
    ConnectedEdge(DuplicateEdges(t), d.a, d.b);
    ConnectedSameGroup(|inp.rows|, t, r.groups, i, d.a, d.b);
  }

  lemma MemberHasDecision(n: nat, t: seq<Decision>, groups: seq<Group>, i: nat, x: nat) returns (k: nat)
    requires IsGrouping(n, t, groups) && i < |groups| && x in groups[i].members
    ensures k < |t| && t[k].verdict.Duplicate? && (t[k].a == x || t[k].b == x)
  {
    assert IsGroup(n, t, groups[i]);
    var y := if groups[i].members[0] == x then groups[i].members[1] else groups[i].members[0];
    SameGroupConnected(n, t, groups, i, x, y);
    var z := ConnectedHasEdge(DuplicateEdges(t), x, y);
    var e := if (x, z) in DuplicateEdges(t) then (x, z) else (z, x);
    var d :| d in t && d.verdict.Duplicate? && e == (d.a, d.b);
    k :| 0 <= k < |t| && t[k] == d;
  }

  /** If the cap was not reached, the decisions pointing at a group name exactly its rows. */
  lemma NamedExactly(
      inp: Input, r: MatchResult, t: seq<Decision>, chains: nat, keys: seq<string>, i: nat, x: nat)
    requires ValidInput(inp) && Correct(inp, r, t, chains, keys) && i < |r.groups|
    requires |t| <= inp.limits.maxPersistedDecisions
    ensures Named(r.decisions, i, x) <==> x in r.groups[i].members
  {
    if Named(r.decisions, i, x) {
      NamedIsMember(inp, r, t, chains, keys, i, x);
    }
    if x in r.groups[i].members {
      var k := MemberHasDecision(|inp.rows|, t, r.groups, i, x);
      var j := r.decisions[k].groupIndex.value;
      assert Named(r.decisions, j, x);
      NamedIsMember(inp, r, t, chains, keys, j, x);
      GroupsDisjoint(|inp.rows|, t, r.groups, i, j, x);
    }
  }

  // ----- work

  ghost function Firsts(rows: seq<Row>): set<nat> {
    set i | 0 <= i < |rows| && IsFirst(rows, i)
  }

  lemma {:induction false} InjectiveImage(rows: seq<Row>, s: set<nat>)
    requires forall i <- s :: i < |rows|
    requires forall i <- s, j <- s :: i != j ==> rows[i] != rows[j]
    ensures |set i | i in s :: rows[i]| == |s|
    decreases s
  {
    if s != {} {
      var x :| x in s;
      var rest := s - {x};
      InjectiveImage(rows, rest);
      assert (set i | i in s :: rows[i]) == (set i | i in rest :: rows[i]) + {rows[x]};
    }
  }

  /** There is one representative per distinct row. */
  lemma FirstsCount(rows: seq<Row>)
    ensures |Firsts(rows)| == DistinctRows(rows)
  {
    var f := Firsts(rows);
    InjectiveImage(rows, f);
    assert (set i | i in f :: rows[i]) == (set r | r in rows) by {
      forall r | r in rows
        ensures exists i :: i in f && rows[i] == r
      {
        var j :| 0 <= j < |rows| && rows[j] == r;
        assert Rep(rows, j) in f;
      }
    }
  }

  ghost function InBlocks(inp: Input, keys: seq<string>): set<nat>
    requires ValidInput(inp) && Scoring(inp)
  {
    set i | i in Firsts(inp.rows) && Key(inp, i) in keys
  }

  ghost function Volume(inp: Input, keys: seq<string>): nat
    requires ValidInput(inp) && Scoring(inp)
  {
    if keys == [] then 0 else Volume(inp, keys[..|keys| - 1]) + |Block(inp, keys[|keys| - 1])|
  }

  /** Blocks are disjoint, so their sizes add up. */
  lemma {:induction false} VolumeIsSize(inp: Input, keys: seq<string>)
    requires ValidInput(inp) && Scoring(inp) && SortedKeys(keys)
    ensures Volume(inp, keys) == |InBlocks(inp, keys)|
  {
    if keys == [] {
      assert InBlocks(inp, keys) == {};
    } else {
      var front, k := keys[..|keys| - 1], keys[|keys| - 1];
      VolumeIsSize(inp, front);
      assert k !in front by {
        if k in front {
          LessIrreflexive(k);
        }
      }
      assert forall q :: q in keys <==> q in front || q == k;
      assert InBlocks(inp, keys) == InBlocks(inp, front) + Block(inp, k);
      assert InBlocks(inp, front) !! Block(inp, k);
    }
  }

  lemma VolumeBound(inp: Input, keys: seq<string>)
    requires ValidInput(inp) && Scoring(inp) && SortedKeys(keys)
    ensures Volume(inp, keys) <= DistinctRows(inp.rows)
  {
    VolumeIsSize(inp, keys);
    FirstsCount(inp.rows);
    var f := Firsts(inp.rows);
    assert f == InBlocks(inp, keys) + (f - InBlocks(inp, keys));
  }

  lemma PairsBound(s: nat, m: nat)
    requires s <= m && m >= 1
    ensures 2 * PairsIn(s) <= s * (m - 1)
  {
    if s > 0 {
      assert s * (s - 1) <= s * (m - 1);
    }
  }

  lemma ShareOfRows(v: nat, size: nat, m: nat)
    requires m >= 1
    ensures (v + size) * (m - 1) == v * (m - 1) + size * (m - 1) >= v * (m - 1)
  {
  }

  lemma OneMoreSkipped(k: nat, m: nat, v: nat, size: nat)
    requires k >= 1 && (k - 1) * (m + 1) <= v && size > m
    ensures k * (m + 1) <= v + size
  {
    assert k * (m + 1) == (k - 1) * (m + 1) + (m + 1);
  }

  /** Kept and skipped blocks compete for the same rows. */
  lemma {:induction false} BlockBudget(inp: Input, keys: seq<string>, skipped: seq<SkippedBlock>)
    requires ValidInput(inp) && Scoring(inp) && SkipRecords(inp, keys, skipped)
    requires inp.limits.maxBlockSize >= 1
    ensures 2 * KeptPairs(inp, keys) <= Volume(inp, keys) * (inp.limits.maxBlockSize - 1)
    ensures |skipped| * (inp.limits.maxBlockSize + 1) <= Volume(inp, keys)
  {
    hide SkipRecord, PairsIn, Block;
    var m := inp.limits.maxBlockSize;
    if keys != [] {
      var front, k := keys[..|keys| - 1], keys[|keys| - 1];
      var size, v := |Block(inp, k)|, Volume(inp, front);
      ShareOfRows(v, size, m);
      if Oversized(inp, k) {
        BlockBudget(inp, front, skipped[..|skipped| - 1]);
        OneMoreSkipped(|skipped|, m, v, size);
      } else {
        BlockBudget(inp, front, skipped);
        PairsBound(size, m);
      }
    }
  }

  /** Comparisons are the chained copies plus the pairs of kept blocks, hence at most
      (n - d) + d(M-1)/2, and there are at most d/(M+1) skipped blocks. */
  lemma WorkBound(inp: Input, r: MatchResult, t: seq<Decision>, chains: nat, keys: seq<string>)
    requires ValidInput(inp) && Correct(inp, r, t, chains, keys) && inp.limits.maxBlockSize >= 1
    ensures var n, d, m := |inp.rows|, DistinctRows(inp.rows), inp.limits.maxBlockSize;
            && 2 * r.totalComparisons <= 2 * (n - d) + d * (m - 1)
            && |r.skipped| * (m + 1) <= d
  {
    hide FullTrace, IsGrouping, Wired, Tallied, SkipRecords, KeptPairs;
    var d, m := DistinctRows(inp.rows), inp.limits.maxBlockSize;
    if Scoring(inp) {
      BlockBudget(inp, keys, r.skipped);
      VolumeBound(inp, keys);
      Scale(Volume(inp, keys), d, m - 1);
    } else {
      Scale(0, d, m - 1);
    }
  }

  lemma Scale(a: nat, b: nat, c: nat)
    requires a <= b
    ensures a * c <= b * c
  {
  }
}

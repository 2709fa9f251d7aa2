/** `match`: exact chaining, blocked scoring, clustering, in that order. */
module MatchEngine {
  import opened Forests
  import opened UnionFinds
  import opened MatchSpec
  import opened MatchRecorder
  import opened MatchChains
  import opened MatchBlocks
  import opened MatchGroups
  import opened MatchRefinement

  lemma ScoringAppended(inp: Input, t: seq<Decision>, chains: nat)
    requires ValidInput(inp) && chains <= |t| && ChainTrace(inp, t[..chains], |inp.rows|, 0)
    requires Scoring(inp) ==> ScoredTrace(inp, t[chains..], End)
    requires !Scoring(inp) ==> chains == |t|
    ensures FullTrace(inp, t, chains)
  {
  }

  /** Decisions come out of the scan without a group, about distinct rows of one tree. */
  lemma DecisionsReady(inp: Input, f: Forest, t: seq<Decision>, chains: nat, k: nat)
    requires ValidInput(inp) && FullTrace(inp, t, chains) && Clusters(f, |inp.rows|, t) && k < |t|
    ensures t[k].a < t[k].b < |inp.rows| && t[k].groupIndex.None?
    ensures t[k].verdict.Duplicate? ==> Root(f, t[k].a) == Root(f, t[k].b)
  {
    DecisionOrdered(inp, t, chains, k);
    if k < chains {
      assert t[..chains][k] == t[k];
    } else {
      assert t[chains..][k - chains] == t[k];
    }
    if t[k].verdict.Duplicate? {
      DuplicateIsEdge(t, t[k]);
    }
  }

  /** Clustering: groups, confidences and the wiring of the kept decisions. */
  method Cluster(inp: Input, rec: Recorder, ghost chains: nat) returns (groups: seq<Group>, decisions: seq<Decision>)
    requires ValidInput(inp) && rec.Valid() && rec.rowCount == |inp.rows|
    requires FullTrace(inp, rec.trace, chains)
    modifies rec.uf
    ensures IsGrouping(|inp.rows|, rec.trace, groups)
    ensures Wired(Capped(rec.trace, rec.cap), groups, decisions)
  {
    hide FullTrace, RanksEarned, WellFormed, IsGrouping, Wired, TreesAsGroups, Lists, ByTree, Indexed;
    hide Tallied, GroupsByRoot;
    ghost var t, n := rec.trace, |inp.rows|;
    var components := rec.uf.Components();
    ghost var f := rec.uf.State();
    SameRootsClusters(old(rec.uf.State()), f, n, t);
    EdgesInForest(f, n, t);
    var plain, index;
    ghost var roots;
    plain, index, roots := GroupsFromComponents(f, components);
    ComponentsIndexed(f, components, index);
    var lists := CollectConfidences(rec.uf, rec.edges, f);
    ListsNonEmpty(f, rec.edges, lists);
    groups := SetConfidences(rec.uf, plain, lists, f, roots, index);
    TreesAreGrouping(f, n, t, lists, roots, groups, index);
    forall k | 0 <= k < |t| {
      DecisionsReady(inp, f, t, chains, k);
    }
    decisions := WireDecisions(rec.uf, rec.decisions, rec.pending, index, f);
    WiredCorrectly(f, rec.decisions, roots, groups, index, decisions);
  }

  lemma ListsNonEmpty(f: Forest, edges: seq<ScoredEdge>, lists: map<nat, seq<real>>)
    requires WellFormed(f) && InForest(f, edges) && ByTree(f, edges, lists)
    ensures forall r <- lists :: |lists[r]| > 0
  {
  }

  /** On every table, rule set and limits, `match` yields the result the
      specification owes; the ghost results are the uncapped list of decisions, how
      many of them are exact, and the blocking keys in order. */
  method Match(inp: Input)
    returns (r: MatchResult, ghost t: seq<Decision>, ghost chains: nat, ghost keys: seq<string>)
    requires ValidInput(inp)
    ensures Correct(inp, r, t, chains, keys)
    ensures Explained(inp, r)
  {
    hide FullTrace, ChainTrace, ScoredTrace, Clusters, IsGrouping, Wired, SkipRecords, KeptPairs, BlockKeys, IsFirst;
    var rec := new Recorder(|inp.rows|, inp.limits.maxPersistedDecisions);
    var comparisons, repFor := ChainIdenticalRows(inp, rec);
    var skipped := [];
    chains, keys := |rec.trace|, [];
    assert rec.trace[..chains] == rec.trace;
    if Scoring(inp) {
      var scored;
      scored, skipped, keys := ScoreBlocks(inp, repFor, rec);
      comparisons := comparisons + scored;
    }
    t := rec.trace;
    ScoringAppended(inp, t, chains);
    var groups, decisions := Cluster(inp, rec, chains);
    var confidence := OverallConfidence(groups);
    r := MatchResult(groups, decisions, skipped, |inp.rows|, comparisons,
                     rec.duplicatePairs, rec.ambiguousPairs, rec.byRule, confidence);
    assert Correct(inp, r, t, chains, keys);
  }
}

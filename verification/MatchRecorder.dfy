/** The mutable part of a matching run: the decisions with their cap and tallies, the
    duplicate edges, and the disjoint sets they are united in. */
module MatchRecorder {
  import opened Forests
  import opened Clustering
  import opened UnionFinds
  import opened MatchSpec

  datatype ScoredEdge = ScoredEdge(a: nat, b: nat, confidence: real)

  /** The duplicate decisions of `t` as edges with their confidence, in order. */
  function ScoredEdges(t: seq<Decision>): seq<ScoredEdge> {
    if t == [] then []
    else
      var d := t[|t| - 1];
      ScoredEdges(t[..|t| - 1]) + if d.verdict.Duplicate? then [ScoredEdge(d.a, d.b, d.confidence)] else []
  }

  lemma SnocDecision(t: seq<Decision>, d: Decision)
    ensures ScoredEdges(t + [d])
         == ScoredEdges(t) + if d.verdict.Duplicate? then [ScoredEdge(d.a, d.b, d.confidence)] else []
    ensures DuplicateEdges(t + [d])
         == DuplicateEdges(t) + if d.verdict.Duplicate? then {(d.a, d.b)} else {}
  {
    assert (t + [d])[..|t|] == t;
    assert d in t + [d];
    assert forall e :: e in t + [d] <==> e in t || e == d;
  }

  lemma {:induction false} ScoredEdgesComplete(t: seq<Decision>)
    ensures forall d :: d in t && d.verdict.Duplicate? ==> ScoredEdge(d.a, d.b, d.confidence) in ScoredEdges(t)
    ensures forall e :: e in ScoredEdges(t) ==>
              exists d :: d in t && d.verdict.Duplicate? && e == ScoredEdge(d.a, d.b, d.confidence)
  {
    if t != [] {
      var front, d := t[..|t| - 1], t[|t| - 1];
      ScoredEdgesComplete(front);
      assert t == front + [d];
      forall e | e in ScoredEdges(t)
        ensures exists d :: d in t && d.verdict.Duplicate? && e == ScoredEdge(d.a, d.b, d.confidence)
      {
        if e in ScoredEdges(front) {
          var d' :| d' in front && d'.verdict.Duplicate? && e == ScoredEdge(d'.a, d'.b, d'.confidence);
          assert d' in t;
        } else {
          assert d in t;
        }
      }
    }
  }

  lemma SnocTally(t: seq<Decision>, d: Decision, duplicates: nat, ambiguous: nat, byRule: map<RuleName, nat>)
    requires Tallied(t, duplicates, ambiguous, byRule)
    ensures Tallied(t + [d],
                    if d.verdict.Duplicate? then duplicates + 1 else duplicates,
                    if d.verdict.Duplicate? then ambiguous else ambiguous + 1,
                    byRule[d.rule := (if d.rule in byRule then byRule[d.rule] else 0) + 1])
  {
    assert (t + [d])[..|t|] == t;
    forall r
      ensures CountRule(t + [d], r) == CountRule(t, r) + if d.rule == r then 1 else 0
    {
    }
  }

  /** A forest of `n` elements that holds the partition the decisions `t` generate. */
  ghost predicate Clusters(f: Forest, n: nat, t: seq<Decision>) {
    f.Size() == n && Represents(f, DuplicateEdges(t))
  }

  lemma ClustersDuplicate(f: Forest, n: nat, t: seq<Decision>, d: Decision)
    requires Clusters(f, n, t) && d.verdict.Duplicate? && d.a < n && d.b < n
    ensures Clusters(Union(f, d.a, d.b), n, t + [d])
  {
    SnocDecision(t, d);
    UnionRepresents(f, DuplicateEdges(t), d.a, d.b);
  }

  lemma ClustersAmbiguous(f: Forest, n: nat, t: seq<Decision>, d: Decision)
    requires Clusters(f, n, t) && d.verdict.Ambiguous?
    ensures Clusters(f, n, t + [d])
  {
    SnocDecision(t, d);
    assert DuplicateEdges(t + [d]) == DuplicateEdges(t);
  }

  class Recorder {
    const cap: nat
    const rowCount: nat
    const uf: UnionFind
    var decisions: seq<Decision>
    var duplicatePairs: nat
    var ambiguousPairs: nat
    var byRule: map<RuleName, nat>
    /** Positions in `decisions` of the duplicates, whose group is filled in later. */
    var pending: seq<nat>
    var edges: seq<ScoredEdge>
    ghost var trace: seq<Decision>

    ghost predicate Recorded()
      reads this
    {
      && decisions == Capped(trace, cap)
      && Tallied(trace, duplicatePairs, ambiguousPairs, byRule)
      && (forall p :: p in pending <==> 0 <= p < |decisions| && decisions[p].verdict.Duplicate?)
    }

    ghost predicate Valid()
      reads this, uf
    {
      Recorded() && edges == ScoredEdges(trace) && Clusters(uf.State(), rowCount, trace)
    }

    constructor (rowCount: nat, cap: nat)
      ensures Valid() && trace == [] && this.cap == cap && this.rowCount == rowCount
      ensures fresh(uf)
    {
      this.cap, this.rowCount := cap, rowCount;
      uf := new UnionFind(rowCount);
      decisions, duplicatePairs, ambiguousPairs, byRule, pending, edges := [], 0, 0, map[], [], [];
      trace := [];
      new;
      assert DuplicateEdges([]) == {};
    }

    /** `record_decision`: tallies always, the list only while under its cap. */
    method Record(d: Decision)
      requires Recorded()
      modifies this`decisions, this`duplicatePairs, this`ambiguousPairs, this`byRule, this`pending, this`trace
      ensures Recorded() && trace == old(trace) + [d]
    {
      hide Tallied;
      SnocTally(trace, d, duplicatePairs, ambiguousPairs, byRule);
      byRule := byRule[d.rule := (if d.rule in byRule then byRule[d.rule] else 0) + 1];
      if d.verdict.Duplicate? {
        duplicatePairs := duplicatePairs + 1;
      } else {
        ambiguousPairs := ambiguousPairs + 1;
      }
      if |decisions| < cap {
        decisions := decisions + [d];
        if d.verdict.Duplicate? {
          pending := pending + [|decisions| - 1];
        }
      }
      trace := trace + [d];
    }

    /** A decision takes effect: a duplicate is united and logged as an edge, and
        either kind is recorded. */
    method Decide(d: Decision)
      requires Valid() && d.a < rowCount && d.b < rowCount
      modifies this, uf
      ensures Valid() && trace == old(trace) + [d]
    {
      SnocDecision(trace, d);
      if d.verdict.Duplicate? {
        ClustersDuplicate(uf.State(), rowCount, trace, d);
        uf.Union(d.a, d.b);
        edges := edges + [ScoredEdge(d.a, d.b, d.confidence)];
      } else {
        ClustersAmbiguous(uf.State(), rowCount, trace, d);
      }
      Record(d);
    }
  }
}

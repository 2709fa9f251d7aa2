/** The two-stage matcher agrees with the simple relation: chaining, picking
    representatives and blocking change nothing about who ends up with whom. */
module MatchRefinement {
  import opened Tables
  import Text
  import opened Graph
  import opened Comparison
  import opened MatchSpec

  lemma DuplicateIsEdge(t: seq<Decision>, d: Decision)
    requires d in t && d.verdict.Duplicate?
    ensures (d.a, d.b) in DuplicateEdges(t)
  {
  }

  lemma ChainDecisionPresent(inp: Input, t: seq<Decision>, chains: nat, a: nat, b: nat)
    requires ValidInput(inp) && FullTrace(inp, t, chains) && ChainPair(inp.rows, a, b)
    ensures ExactDecision(inp, a, b) in t
  {
    assert ChainBefore(inp.rows, a, |inp.rows|, 0);
    assert ExactDecision(inp, a, b) in t[..chains];
  }

  lemma ScoredDecisionPresent(inp: Input, t: seq<Decision>, chains: nat, a: nat, b: nat)
    requires ValidInput(inp) && FullTrace(inp, t, chains) && Scoring(inp)
    requires Compared(inp, a, b) && Reported(inp, PairScore(inp, a, b))
    ensures ScoredDecision(inp, a, b) in t
  {
    assert Passed(inp, a, b, End);
    assert ScoredDecision(inp, a, b) in t[chains..];
  }

  lemma PreviousOccurrence(rows: seq<Row>, i: nat) returns (p: nat)
    requires i < |rows| && !IsFirst(rows, i)
    ensures ChainPair(rows, p, i)
  {
    p := i - 1;
    while rows[p] != rows[i]
      invariant p < i && forall c :: p < c < i ==> rows[c] != rows[i]
      invariant exists j :: 0 <= j <= p && rows[j] == rows[i]
      decreases p
    {
      p := p - 1;
    }
  }

  /** The chain of identical rows reaches from the representative to every copy. */
  lemma {:induction false} RepConnected(inp: Input, t: seq<Decision>, chains: nat, i: nat)
    requires ValidInput(inp) && FullTrace(inp, t, chains) && i < |inp.rows|
    ensures Connected(DuplicateEdges(t), Rep(inp.rows, i), i)
  {
    var es := DuplicateEdges(t);
    if IsFirst(inp.rows, i) {
      RepUnique(inp.rows, i, i);
      ConnectedRefl(es, i);
    } else {
      var p := PreviousOccurrence(inp.rows, i);
      RepConnected(inp, t, chains, p);
      RepUnique(inp.rows, i, Rep(inp.rows, p));
      ChainDecisionPresent(inp, t, chains, p, i);
      DuplicateIsEdge(t, ExactDecision(inp, p, i));
      ConnectedEdge(es, p, i);
      ConnectedTrans(es, Rep(inp.rows, i), p, i);
    }
  }

  lemma ScoredRepsConnected(inp: Input, t: seq<Decision>, chains: nat, a: nat, b: nat)
    requires ValidInput(inp) && FullTrace(inp, t, chains) && Scoring(inp)
    requires Compared(inp, a, b) && PairScore(inp, a, b) >= inp.rules.value.duplicateThreshold
    ensures Connected(DuplicateEdges(t), a, b) && Connected(DuplicateEdges(t), b, a)
  {
    ScoredDecisionPresent(inp, t, chains, a, b);
    DuplicateIsEdge(t, ScoredDecision(inp, a, b));
    ConnectedEdge(DuplicateEdges(t), a, b);
    ConnectedEdge(DuplicateEdges(t), b, a);
  }

  lemma PairScoreSymmetric(inp: Input, i: nat, j: nat)
    requires ValidInput(inp) && Scoring(inp) && i < |inp.rows| && j < |inp.rows|
    ensures PairScore(inp, i, j) == PairScore(inp, j, i)
  {
    ScoreSymmetric(inp.fold, inp.headers, inp.rules.value.fields, inp.rows[i], inp.rows[j]);
  }

  /** Representatives stand in for their copies: same key, same scores. */
  lemma RepsCompared(inp: Input, i: nat, j: nat)
    requires ValidInput(inp) && NaivelyLinked(inp, i, j) && inp.rows[i] != inp.rows[j]
    ensures var ri, rj := Rep(inp.rows, i), Rep(inp.rows, j);
            && PairScore(inp, ri, rj) >= inp.rules.value.duplicateThreshold
            && (ri < rj ==> Compared(inp, ri, rj))
            && (rj < ri ==> Compared(inp, rj, ri))
            && ri != rj
  {
    var ri, rj := Rep(inp.rows, i), Rep(inp.rows, j);
    assert Key(inp, ri) == Key(inp, i) && Key(inp, rj) == Key(inp, j);
    assert PairScore(inp, ri, rj) == PairScore(inp, i, j);
  }

  lemma RepsConnected(inp: Input, t: seq<Decision>, chains: nat, i: nat, j: nat)
    requires ValidInput(inp) && FullTrace(inp, t, chains) && NaivelyLinked(inp, i, j)
    ensures Connected(DuplicateEdges(t), Rep(inp.rows, i), Rep(inp.rows, j))
  {
    var es, ri, rj := DuplicateEdges(t), Rep(inp.rows, i), Rep(inp.rows, j);
    if inp.rows[i] == inp.rows[j] {
      RepUnique(inp.rows, j, ri);
      ConnectedRefl(es, ri);
    } else {
      RepsCompared(inp, i, j);
      if ri < rj {
        ScoredRepsConnected(inp, t, chains, ri, rj);
      } else {
        PairScoreSymmetric(inp, ri, rj);
        ScoredRepsConnected(inp, t, chains, rj, ri);
      }
    }
  }

  lemma NaiveEdgeConnected(inp: Input, t: seq<Decision>, chains: nat, i: nat, j: nat)
    requires ValidInput(inp) && FullTrace(inp, t, chains) && NaivelyLinked(inp, i, j)
    ensures Connected(DuplicateEdges(t), i, j)
  {
    var es, ri, rj := DuplicateEdges(t), Rep(inp.rows, i), Rep(inp.rows, j);
    RepConnected(inp, t, chains, i);
    RepConnected(inp, t, chains, j);
    RepsConnected(inp, t, chains, i, j);
    ConnectedSym(es, ri, i);
    ConnectedTrans(es, i, ri, rj);
    ConnectedTrans(es, i, rj, j);
  }

  lemma DecisionIsNaive(inp: Input, t: seq<Decision>, chains: nat, d: Decision)
    requires ValidInput(inp) && FullTrace(inp, t, chains) && d in t && d.verdict.Duplicate?
    ensures NaivelyLinked(inp, d.a, d.b) && d.a < d.b
  {
    var k :| 0 <= k < |t| && t[k] == d;
    if k < chains {
      assert t[..chains][k] == d;
    } else {
      assert t[chains..][k - chains] == d;
    }
  }

  /** Two rows are united by the matcher exactly when a chain of naively linked
      rows joins them: identical rows, or rows sharing a usable blocking key and
      scoring as duplicates, over all rows and not only the representatives. */
  lemma MatchRefinesNaive(inp: Input, t: seq<Decision>, chains: nat, x: nat, y: nat)
    requires ValidInput(inp) && FullTrace(inp, t, chains)
    ensures Connected(DuplicateEdges(t), x, y) <==> Connected(NaiveEdges(inp), x, y)
  {
    var es, naive := DuplicateEdges(t), NaiveEdges(inp);
    if Connected(es, x, y) {
      forall e <- es
        ensures e in naive
      {
        var d :| d in t && d.verdict.Duplicate? && e == (d.a, d.b);
        DecisionIsNaive(inp, t, chains, d);
      }
      ConnectedMono(es, naive, x, y);
    }
    if Connected(naive, x, y) {
      forall e <- naive
        ensures Connected(es, e.0, e.1)
      {
        NaiveEdgeConnected(inp, t, chains, e.0, e.1);
      }
      ConnectedSubsumed(naive, es, x, y);
    }
  }

  /** The relation with no mention of blocks: identical, or non-blank blocking
      values and a duplicate score. */
  ghost predicate ScoreLinked(inp: Input, i: nat, j: nat)
    requires ValidInput(inp)
  {
    && i < |inp.rows| && j < |inp.rows|
    && (|| inp.rows[i] == inp.rows[j]
        || (&& Scoring(inp)
            && Key(inp, i) != "" && Key(inp, j) != ""
            && PairScore(inp, i, j) >= inp.rules.value.duplicateThreshold))
  }

  ghost function ScoreEdges(inp: Input): set<Edge>
    requires ValidInput(inp)
  {
    set i, j | 0 <= i < |inp.rows| && 0 <= j < |inp.rows| && ScoreLinked(inp, i, j) :: (i, j)
  }

  /** The blocking column outweighs what a duplicate may leave unmatched, or is absent. */
  ghost predicate DominantField(inp: Input)
    requires Scoring(inp)
  {
    var rules := inp.rules.value;
    PositiveWeights(rules.fields) && Dominates(inp.fold, inp.headers, rules.fields, rules.duplicateThreshold)
  }

  lemma DominantKeysAgree(inp: Input, i: nat, j: nat)
    requires ValidInput(inp) && Scoring(inp) && DominantField(inp)
    requires i < |inp.rows| && j < |inp.rows|
    requires PairScore(inp, i, j) >= inp.rules.value.duplicateThreshold
    ensures Key(inp, i) == Key(inp, j)
  {
    hide Score, BlockingKey, Dominates;
    DominanceIsLossless(inp.fold, inp.headers, inp.rules.value.fields,
                        inp.rules.value.duplicateThreshold, inp.rows[i], inp.rows[j]);
  }

  lemma ScoreLinkedIsNaive(inp: Input, i: nat, j: nat)
    requires ValidInput(inp)
    requires Scoring(inp) ==> DominantField(inp)
    requires Scoring(inp) ==> forall k :: k != "" ==> !Oversized(inp, k)
    ensures ScoreLinked(inp, i, j) <==> NaivelyLinked(inp, i, j)
  {
    hide DominantField, Key, PairScore, Oversized;
    if ScoreLinked(inp, i, j) && inp.rows[i] != inp.rows[j] {
      DominantKeysAgree(inp, i, j);
      assert !Oversized(inp, Key(inp, i));
    }
  }

  /** With a dominant blocking field and no skipped block, blocking is invisible:
      the groups are the classes of the scored relation itself. */
  lemma BlockingInvisible(inp: Input, t: seq<Decision>, chains: nat, x: nat, y: nat)
    requires ValidInput(inp) && FullTrace(inp, t, chains)
    requires Scoring(inp) ==> DominantField(inp)
    requires Scoring(inp) ==> forall k :: k != "" ==> !Oversized(inp, k)
    ensures Connected(DuplicateEdges(t), x, y) <==> Connected(ScoreEdges(inp), x, y)
  {
    assert ScoreEdges(inp) == NaiveEdges(inp) by {
      forall i: nat, j: nat
        ensures ScoreLinked(inp, i, j) <==> NaivelyLinked(inp, i, j)
      {
        ScoreLinkedIsNaive(inp, i, j);
      }
    }
    MatchRefinesNaive(inp, t, chains, x, y);
  }

  // ----- the audit trail

  /** Every decision names its rows in ascending order, both inside the table. */
  lemma DecisionOrdered(inp: Input, t: seq<Decision>, chains: nat, k: nat)
    requires ValidInput(inp) && FullTrace(inp, t, chains) && k < |t|
    ensures t[k].a < t[k].b < |inp.rows|
    ensures k < chains <==> inp.rows[t[k].a] == inp.rows[t[k].b]
  {
    if k < chains {
      assert t[..chains][k] == t[k];
    } else {
      assert t[chains..][k - chains] == t[k];
      assert Compared(inp, t[k].a, t[k].b);
    }
  }

  /** No pair of rows is ever decided twice. */
  lemma NoPairTwice(inp: Input, t: seq<Decision>, chains: nat, k: nat, l: nat)
    requires ValidInput(inp) && FullTrace(inp, t, chains) && k < l < |t|
    ensures (t[k].a, t[k].b) != (t[l].a, t[l].b)
  {
    DecisionOrdered(inp, t, chains, k);
    DecisionOrdered(inp, t, chains, l);
    if l < chains {
      assert t[..chains][k] == t[k] && t[..chains][l] == t[l];
    } else if k >= chains {
      assert t[chains..][k - chains] == t[k] && t[chains..][l - chains] == t[l];
      assert Passed(inp, t[k].a, t[k].b, At(Key(inp, t[l].a), t[l].a, t[l].b));
      Text.LessIrreflexive(Key(inp, t[k].a));
    }
  }
}

/** First stage of `match`: rows with equal contents are grouped, and each group is
    chained so that a linear number of unions connects it. */
module MatchChains {
  import opened Wrappers
  import opened Tables
  import opened Sequences
  import opened MatchSpec
  import opened MatchRecorder

  /** `s` lists the rows below `n` equal to `row`, ascending. */
  ghost predicate Occurrences(rows: seq<Row>, row: Row, n: nat, s: seq<nat>)
    requires n <= |rows|
  {
    && Ascending(s) && |s| > 0
    && (forall i :: 0 <= i < |s| ==> s[i] < n && rows[s[i]] == row)
    && (forall x :: 0 <= x < n && rows[x] == row ==> x in s)
  }

  function SumSizes(order: seq<Row>, groups: map<Row, seq<nat>>): nat {
    if order == [] then 0
    else
      var row := order[|order| - 1];
      SumSizes(order[..|order| - 1], groups) + if row in groups then |groups[row]| else 0
  }

  /** The dictionary of identical rows after `n` rows; `order` is its insertion order. */
  ghost predicate ExactGroups(rows: seq<Row>, n: nat, order: seq<Row>, groups: map<Row, seq<nat>>)
    requires n <= |rows|
  {
    && (forall r :: r in groups <==> r in order)
    && (forall r <- groups :: Occurrences(rows, r, n, groups[r]))
    && (forall i :: 0 <= i < |order| ==> order[i] in groups)
    && (forall i, j :: 0 <= i < j < |order| ==> groups[order[i]][0] < groups[order[j]][0])
    && (forall x :: 0 <= x < n ==> rows[x] in groups)
  }

  lemma {:induction false} SumSizesUpdate(order: seq<Row>, groups: map<Row, seq<nat>>, r: Row, s: seq<nat>)
    requires forall i :: 0 <= i < |order| ==> order[i] in groups
    requires forall i, j :: 0 <= i < j < |order| ==> order[i] != order[j]
    ensures SumSizes(order, groups[r := s])
         == SumSizes(order, groups) + if r in order then |s| - |groups[r]| else 0
  {
    if order != [] {
      var front := order[..|order| - 1];
      SumSizesUpdate(front, groups, r, s);
      assert order == front + [order[|order| - 1]];
    }
  }

  lemma AddExisting(rows: seq<Row>, n: nat, order: seq<Row>, groups: map<Row, seq<nat>>)
    requires n < |rows| && ExactGroups(rows, n, order, groups) && rows[n] in groups
    ensures ExactGroups(rows, n + 1, order, groups[rows[n] := groups[rows[n]] + [n]])
  {
    var r := rows[n];
    var next := groups[r := groups[r] + [n]];
    forall q <- next
      ensures Occurrences(rows, q, n + 1, next[q])
    {
      assert Occurrences(rows, q, n, groups[q]);
    }
    forall i | 0 <= i < |order|
      ensures next[order[i]][0] == groups[order[i]][0]
    {
    }
  }

  lemma AddNew(rows: seq<Row>, n: nat, order: seq<Row>, groups: map<Row, seq<nat>>)
    requires n < |rows| && ExactGroups(rows, n, order, groups) && rows[n] !in groups
    ensures ExactGroups(rows, n + 1, order + [rows[n]], groups[rows[n] := [n]])
  {
    var r := rows[n];
    var next := groups[r := [n]];
    forall q <- next
      ensures Occurrences(rows, q, n + 1, next[q])
    {
      if q != r {
        assert Occurrences(rows, q, n, groups[q]);
      }
    }
    forall i | 0 <= i < |order|
      ensures next[order[i]][0] == groups[order[i]][0] < n
    {
      assert Occurrences(rows, order[i], n, groups[order[i]]);
    }
  }

  method GroupIdenticalRows(rows: seq<Row>) returns (order: seq<Row>, groups: map<Row, seq<nat>>)
    ensures ExactGroups(rows, |rows|, order, groups)
    ensures SumSizes(order, groups) == |rows|
  {
    hide ExactGroups, SumSizes;
    order, groups := [], map[];
    NothingGrouped(rows);
    for n := 0 to |rows|
      invariant ExactGroups(rows, n, order, groups)
      invariant SumSizes(order, groups) == n
    {
      if rows[n] in groups {
        AddExisting(rows, n, order, groups);
        SumExisting(rows, n, order, groups);
        groups := groups[rows[n] := groups[rows[n]] + [n]];
      } else {
        AddNew(rows, n, order, groups);
        SumNew(rows, n, order, groups);
        order, groups := order + [rows[n]], groups[rows[n] := [n]];
      }
    }
  }

  lemma NothingGrouped(rows: seq<Row>)
    ensures ExactGroups(rows, 0, [], map[]) && SumSizes([], map[]) == 0
  {
  }

  lemma SumExisting(rows: seq<Row>, n: nat, order: seq<Row>, groups: map<Row, seq<nat>>)
    requires n < |rows| && ExactGroups(rows, n, order, groups) && rows[n] in groups
    ensures SumSizes(order, groups[rows[n] := groups[rows[n]] + [n]]) == SumSizes(order, groups) + 1
  {
    hide Occurrences;
    SumSizesUpdate(order, groups, rows[n], groups[rows[n]] + [n]);
  }

  lemma SumNew(rows: seq<Row>, n: nat, order: seq<Row>, groups: map<Row, seq<nat>>)
    requires n < |rows| && ExactGroups(rows, n, order, groups) && rows[n] !in groups
    ensures SumSizes(order + [rows[n]], groups[rows[n] := [n]]) == SumSizes(order, groups) + 1
  {
    hide Occurrences;
    SumSizesUpdate(order, groups, rows[n], [n]);
    assert (order + [rows[n]])[..|order|] == order;
  }

  lemma OrderCountsDistinct(rows: seq<Row>, order: seq<Row>, groups: map<Row, seq<nat>>)
    requires ExactGroups(rows, |rows|, order, groups)
    ensures |order| == DistinctRows(rows)
  {
    assert (set r | r in rows) == (set r | r in order) by {
      forall r
        ensures r in rows <==> r in order
      {
        if r in order {
          assert Occurrences(rows, r, |rows|, groups[r]);
          assert rows[groups[r][0]] == r;
        }
      }
    }
    DistinctSeqSize(order);
  }

  // ----- chaining

  lemma FirstOccurrenceIsRep(rows: seq<Row>, row: Row, s: seq<nat>, i: nat)
    requires Occurrences(rows, row, |rows|, s) && i < |s|
    ensures Rep(rows, s[i]) == s[0]
  {
    assert IsFirst(rows, s[0]);
    RepUnique(rows, s[i], s[0]);
  }

  /** Where a chain pair of the group listed by `s` can start. */
  lemma ChainPairInGroup(rows: seq<Row>, row: Row, s: seq<nat>, a: nat, b: nat)
    requires Occurrences(rows, row, |rows|, s) && ChainPair(rows, a, b) && Rep(rows, a) == s[0]
    ensures exists i :: 0 <= i < |s| - 1 && a == s[i] && b == s[i + 1]
  {
    assert rows[a] == row;
    var i :| 0 <= i < |s| && s[i] == a;
    var j :| 0 <= j < |s| && s[j] == b;
    assert s[i] < s[i + 1] <= s[j];
  }

  lemma NoneBetween(s: seq<nat>, i: nat, c: nat)
    requires Ascending(s) && i + 1 < |s| && s[i] < c < s[i + 1]
    ensures c !in s
  {
    forall j | 0 <= j < |s|
      ensures s[j] != c
    {
      assert if j <= i then s[j] <= s[i] else s[i + 1] <= s[j];
    }
  }

  lemma ChainStep(inp: Input, t: seq<Decision>, row: Row, s: seq<nat>, i: nat)
    requires ValidInput(inp) && Occurrences(inp.rows, row, |inp.rows|, s) && i + 1 < |s|
    requires ChainTrace(inp, t, s[0], s[i])
    ensures ChainPair(inp.rows, s[i], s[i + 1])
    ensures ChainTrace(inp, t + [ExactDecision(inp, s[i], s[i + 1])], s[0], s[i + 1])
  {
    var rows, d := inp.rows, ExactDecision(inp, s[i], s[i + 1]);
    var t' := t + [d];
    FirstOccurrenceIsRep(rows, row, s, i);
    assert ChainPair(rows, s[i], s[i + 1]) by {
      forall c | s[i] < c < s[i + 1]
        ensures rows[c] != row
      {
        NoneBetween(s, i, c);
      }
    }
    forall a, b | ChainPair(rows, a, b) && ChainBefore(rows, a, s[0], s[i + 1])
      ensures ExactDecision(inp, a, b) in t'
    {
      if !ChainBefore(rows, a, s[0], s[i]) {
        ChainPairInGroup(rows, row, s, a, b);
      }
    }
  }

  /** Moving the cursor over positions where no chain pair starts changes nothing. */
  lemma ChainAdvance(inp: Input, t: seq<Decision>, rep: nat, bound: nat, rep': nat, bound': nat)
    requires ValidInput(inp) && ChainTrace(inp, t, rep, bound)
    requires forall a, b :: ChainPair(inp.rows, a, b) ==>
               (ChainBefore(inp.rows, a, rep, bound) <==> ChainBefore(inp.rows, a, rep', bound'))
    ensures ChainTrace(inp, t, rep', bound')
  {
  }

  /** First index of the k-th group, or one past the table. */
  ghost function Start(rows: seq<Row>, order: seq<Row>, groups: map<Row, seq<nat>>, k: nat): nat
    requires ExactGroups(rows, |rows|, order, groups) && k <= |order|
  {
    if k == |order| then |rows| else groups[order[k]][0]
  }

  /** Once a group is chained, the cursor may as well stand at the next group. */
  lemma SameSide(
      rows: seq<Row>, order: seq<Row>, groups: map<Row, seq<nat>>, k: nat, bound: nat, a: nat, b: nat)
    requires ExactGroups(rows, |rows|, order, groups) && k < |order| && ChainPair(rows, a, b)
    requires var s := groups[order[k]]; bound == if |s| < 2 then 0 else s[|s| - 1]
    ensures ChainBefore(rows, a, groups[order[k]][0], bound)
       <==> ChainBefore(rows, a, Start(rows, order, groups, k + 1), 0)
  {
    var s := groups[order[k]];
    GroupOfRow(rows, order, groups, a);
    var j :| 0 <= j < |order| && order[j] == rows[a] && groups[order[j]][0] == Rep(rows, a);
    if j == k {
      ChainPairInGroup(rows, order[k], s, a, b);
    }
  }

  lemma NextGroup(inp: Input, order: seq<Row>, groups: map<Row, seq<nat>>, k: nat, t: seq<Decision>, bound: nat)
    requires ValidInput(inp) && ExactGroups(inp.rows, |inp.rows|, order, groups) && k < |order|
    requires var s := groups[order[k]]; ChainTrace(inp, t, s[0], bound) && bound == (if |s| < 2 then 0 else s[|s| - 1])
    ensures ChainTrace(inp, t, Start(inp.rows, order, groups, k + 1), 0)
  {
    forall a: nat, b: nat | ChainPair(inp.rows, a, b) {
      SameSide(inp.rows, order, groups, k, bound, a, b);
    }
    ChainAdvance(inp, t, groups[order[k]][0], bound, Start(inp.rows, order, groups, k + 1), 0);
  }

  lemma GroupOfRow(rows: seq<Row>, order: seq<Row>, groups: map<Row, seq<nat>>, a: nat)
    requires ExactGroups(rows, |rows|, order, groups) && a < |rows|
    ensures exists j :: 0 <= j < |order| && order[j] == rows[a] && groups[order[j]][0] == Rep(rows, a)
  {
    var row := rows[a];
    assert row in groups && row in order;
    var j :| 0 <= j < |order| && order[j] == row;
    assert Occurrences(rows, row, |rows|, groups[row]);
    var i :| 0 <= i < |groups[row]| && groups[row][i] == a;
    FirstOccurrenceIsRep(rows, row, groups[row], i);
  }

  /** The rows of the first `k` groups that have a copy are mapped to their representative. */
  ghost predicate Representatives(rows: seq<Row>, order: seq<Row>, k: nat, repFor: map<nat, nat>)
    requires k <= |order|
  {
    && (forall x :: 0 <= x < |rows| && rows[x] in order[..k] ==> x in repFor || IsFirst(rows, x))
    && (forall x <- repFor :: x < |rows| && repFor[x] == Rep(rows, x) && repFor[x] in repFor)
  }

  method ChainGroup(inp: Input, row: Row, s: seq<nat>, rec: Recorder) returns (comparisons: nat)
    requires ValidInput(inp) && Occurrences(inp.rows, row, |inp.rows|, s) && |s| >= 2
    requires rec.Valid() && rec.rowCount == |inp.rows| && ChainTrace(inp, rec.trace, s[0], 0)
    modifies rec, rec.uf
    ensures rec.Valid() && ChainTrace(inp, rec.trace, s[0], s[|s| - 1])
    ensures comparisons == |s| - 1
  {
    hide ChainTrace, Clusters, Tallied;
    comparisons := 0;
    ChainAdvanceToFirst(inp, rec.trace, row, s);
    for i := 0 to |s| - 1
      invariant rec.Valid() && ChainTrace(inp, rec.trace, s[0], s[i]) && comparisons == i
    {
      var a, b := s[i], s[i + 1];
      ChainStep(inp, rec.trace, row, s, i);
      assert ChainPair(inp.rows, a, b);
      comparisons := comparisons + 1;
      rec.Decide(Decision(a, b, None, ExactRow, ExactAudit(inp.headers, inp.rows[a], inp.rows[b]),
                          1.0, 1.0, Duplicate, 1.0, None));
    }
  }

  /** The whole first stage. */
  method ChainIdenticalRows(inp: Input, rec: Recorder) returns (comparisons: nat, repFor: map<nat, nat>)
    requires ValidInput(inp) && rec.Valid() && rec.rowCount == |inp.rows| && rec.trace == []
    modifies rec, rec.uf
    ensures rec.Valid() && ChainTrace(inp, rec.trace, |inp.rows|, 0)
    ensures comparisons == |inp.rows| - DistinctRows(inp.rows)
    ensures forall x :: 0 <= x < |inp.rows| ==> x in repFor || IsFirst(inp.rows, x)
    ensures forall x <- repFor :: x < |inp.rows| && repFor[x] == Rep(inp.rows, x) && repFor[x] in repFor
  {
    hide ChainTrace, Clusters, Tallied, Representatives, SumSizes, Occurrences;
    var order, groups := GroupIdenticalRows(inp.rows);
    comparisons, repFor := 0, map[];
    ghost var rows := inp.rows;
    ChainTraceStart(inp, order, groups);
    NothingSummed(order, groups);
    for k := 0 to |order|
      invariant rec.Valid() && ChainTrace(inp, rec.trace, Start(rows, order, groups, k), 0)
      invariant comparisons == SumSizes(order[..k], groups) - k
      invariant Representatives(rows, order, k, repFor)
    {
      var row := order[k];
      var s := groups[row];
      assert Occurrences(rows, row, |rows|, s);
      GroupNonEmpty(rows, row, s);
      SumSizesNext(order, groups, k);
      if |s| < 2 {
        NextGroup(inp, order, groups, k, rec.trace, 0);
        RepresentativesSingle(rows, order, k, s, repFor);
        continue;
      }
      RepresentativesGroup(rows, order, k, s, repFor);
      repFor := repFor + map x | x in s :: s[0];
      var c := ChainGroup(inp, row, s, rec);
      comparisons := comparisons + c;
      NextGroup(inp, order, groups, k, rec.trace, s[|s| - 1]);
    }
    assert order[..|order|] == order;
    OrderCountsDistinct(rows, order, groups);
    RepresentativesAll(rows, order, groups, repFor);
  }

  lemma SumSizesNext(order: seq<Row>, groups: map<Row, seq<nat>>, k: nat)
    requires k < |order| && forall i :: 0 <= i < |order| ==> order[i] in groups
    ensures SumSizes(order[..k + 1], groups) == SumSizes(order[..k], groups) + |groups[order[k]]|
  {
    assert order[..k + 1][..k] == order[..k];
  }

  lemma NothingSummed(order: seq<Row>, groups: map<Row, seq<nat>>)
    ensures SumSizes(order[..0], groups) == 0
  {
  }

  lemma GroupNonEmpty(rows: seq<Row>, row: Row, s: seq<nat>)
    requires Occurrences(rows, row, |rows|, s)
    ensures |s| > 0
  {
  }

  lemma ChainTraceStart(inp: Input, order: seq<Row>, groups: map<Row, seq<nat>>)
    requires ValidInput(inp) && ExactGroups(inp.rows, |inp.rows|, order, groups)
    ensures ChainTrace(inp, [], Start(inp.rows, order, groups, 0), 0)
    ensures Representatives(inp.rows, order, 0, map[])
  {
    forall a: nat, b: nat | ChainPair(inp.rows, a, b)
      ensures !ChainBefore(inp.rows, a, Start(inp.rows, order, groups, 0), 0)
    {
      GroupOfRow(inp.rows, order, groups, a);
    }
  }

  lemma RepresentativesAll(rows: seq<Row>, order: seq<Row>, groups: map<Row, seq<nat>>, repFor: map<nat, nat>)
    requires ExactGroups(rows, |rows|, order, groups) && Representatives(rows, order, |order|, repFor)
    ensures forall x :: 0 <= x < |rows| ==> x in repFor || IsFirst(rows, x)
    ensures forall x <- repFor :: x < |rows| && repFor[x] == Rep(rows, x) && repFor[x] in repFor
  {
    assert order[..|order|] == order;
  }

  lemma RepresentativesSingle(rows: seq<Row>, order: seq<Row>, k: nat, s: seq<nat>, repFor: map<nat, nat>)
    requires k < |order| && Representatives(rows, order, k, repFor)
    requires Occurrences(rows, order[k], |rows|, s) && |s| < 2
    ensures Representatives(rows, order, k + 1, repFor)
  {
    assert order[..k + 1] == order[..k] + [order[k]];
    forall x | 0 <= x < |rows| && rows[x] == order[k]
      ensures IsFirst(rows, x)
    {
      assert x == s[0];
    }
  }

  lemma RepresentativesGroup(rows: seq<Row>, order: seq<Row>, k: nat, s: seq<nat>, repFor: map<nat, nat>)
    requires k < |order| && Representatives(rows, order, k, repFor)
    requires Occurrences(rows, order[k], |rows|, s)
    ensures Representatives(rows, order, k + 1, repFor + map x | x in s :: s[0])
  {
    assert order[..k + 1] == order[..k] + [order[k]];
    forall x | x in s
      ensures Rep(rows, x) == s[0]
    {
      var i :| 0 <= i < |s| && s[i] == x;
      FirstOccurrenceIsRep(rows, order[k], s, i);
    }
  }

  lemma ChainAdvanceToFirst(inp: Input, t: seq<Decision>, row: Row, s: seq<nat>)
    requires ValidInput(inp) && Occurrences(inp.rows, row, |inp.rows|, s)
    requires ChainTrace(inp, t, s[0], 0)
    ensures ChainTrace(inp, t, s[0], s[0])
  {
    ChainAdvance(inp, t, s[0], 0, s[0], s[0]);
  }
}

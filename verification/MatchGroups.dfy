/** Last stage of `match`: the disjoint sets become groups with a canonical row and a
    confidence, and the kept duplicate decisions are pointed at them. */
module MatchGroups {
  import opened Wrappers
  import opened Graph
  import opened Forests
  import opened Clustering
  import opened UnionFinds
  import opened MatchSpec
  import opened MatchRecorder

  // ----- finds do not disturb the partition

  lemma SameRootsAfterFind(f: Forest, g: Forest, x: nat)
    requires SameRoots(f, g) && x < g.Size()
    ensures SameRoots(f, Compress(g, x))
    ensures Root(g, x) == Root(f, x)
  {
    forall y | 0 <= y < f.Size()
      ensures Root(Compress(g, x), y) == Root(f, y)
    {
      CompressRoot(g, x, y);
    }
  }

  lemma SameRootsClusters(f: Forest, g: Forest, n: nat, t: seq<Decision>)
    requires SameRoots(f, g) && Sound(g) && Clusters(f, n, t)
    ensures Clusters(g, n, t)
  {
  }

  // ----- groups from components

  /** The keys of `groups` in order of the lowest row they list. */
  method RootsByLowestRow(groups: map<nat, seq<nat>>) returns (roots: seq<nat>)
    requires forall r <- groups :: |groups[r]| > 0
    requires forall r <- groups, q <- groups :: r != q ==> groups[r][0] != groups[q][0]
    ensures forall r :: r in roots <==> r in groups
    ensures forall i, j :: 0 <= i < j < |roots| ==> groups[roots[i]][0] < groups[roots[j]][0]
  {
    roots := [];
    var rest := groups.Keys;
    while rest != {}
      invariant rest <= groups.Keys
      invariant forall r :: r in groups <==> r in roots || r in rest
      invariant forall i, j :: 0 <= i < j < |roots| ==> groups[roots[i]][0] < groups[roots[j]][0]
      invariant forall i, q | 0 <= i < |roots| && q in rest :: groups[roots[i]][0] < groups[q][0]
    {
      var m := LowestRoot(groups, rest);
      roots := roots + [m];
      rest := rest - {m};
    }
  }

  method LowestRoot(groups: map<nat, seq<nat>>, roots: set<nat>) returns (m: nat)
    requires roots != {} && roots <= groups.Keys
    requires forall r <- groups :: |groups[r]| > 0
    requires forall r <- groups, q <- groups :: r != q ==> groups[r][0] != groups[q][0]
    ensures m in roots && forall q <- roots :: q == m || groups[m][0] < groups[q][0]
  {
    m :| m in roots;
    var rest := roots - {m};
    while rest != {}
      invariant m in roots && rest <= roots
      invariant forall q <- roots - rest :: q == m || groups[m][0] < groups[q][0]
    {
      var q :| q in rest;
      rest := rest - {q};
      if groups[q][0] < groups[m][0] {
        m := q;
      }
    }
  }

  /** Group `i` is the tree of `roots[i]`; `index` is the inverse of `roots`. */
  ghost predicate TreesAsGroups(f: Forest, roots: seq<nat>, groups: seq<Group>, index: map<nat, nat>)
    requires WellFormed(f)
  {
    && |roots| == |groups|
    && (forall i :: 0 <= i < |groups| ==>
          && |groups[i].members| >= 2 && groups[i].canonical == groups[i].members[0]
          && Lists(f, f.Size(), roots[i], groups[i].members))
    && (forall i, j :: 0 <= i < j < |groups| ==> groups[i].canonical < groups[j].canonical)
    && (forall i :: 0 <= i < |roots| ==> roots[i] in index && index[roots[i]] == i)
    && (forall r <- index :: index[r] < |roots| && roots[index[r]] == r)
  }

  lemma TreesAsGroupsNext(
      f: Forest, roots: seq<nat>, groups: seq<Group>, index: map<nat, nat>, root: nat, members: seq<nat>)
    requires WellFormed(f) && TreesAsGroups(f, roots, groups, index)
    requires Lists(f, f.Size(), root, members) && |members| >= 2 && root !in roots
    requires forall i :: 0 <= i < |groups| ==> groups[i].canonical < members[0]
    ensures TreesAsGroups(f, roots + [root], groups + [Group(members[0], members, 1.0)], index[root := |groups|])
  {
    hide Lists;
    assert root !in index;
  }

  /** Distinct trees have distinct lowest rows. */
  lemma LowestRowsDiffer(f: Forest, components: map<nat, seq<nat>>)
    requires WellFormed(f) && GroupsByRoot(f, f.Size(), components)
    ensures forall r <- components :: |components[r]| > 0
    ensures forall r <- components, q <- components :: r != q ==> components[r][0] != components[q][0]
  {
    forall r <- components
      ensures |components[r]| > 0 && Root(f, components[r][0]) == r
    {
      assert Lists(f, f.Size(), r, components[r]);
    }
  }

  method GroupsFromComponents(ghost f: Forest, components: map<nat, seq<nat>>)
    returns (groups: seq<Group>, index: map<nat, nat>, ghost roots: seq<nat>)
    requires WellFormed(f) && GroupsByRoot(f, f.Size(), components)
    ensures TreesAsGroups(f, roots, groups, index)
    ensures forall r <- components :: |components[r]| >= 2 ==> r in index
  {
    hide Lists, WellFormed;
    LowestRowsDiffer(f, components);
    var all := RootsByLowestRow(components);
    groups, index, roots := [], map[], [];
    for k := 0 to |all|
      invariant TreesAsGroups(f, roots, groups, index)
      invariant forall i, j | 0 <= i < |roots| && k <= j < |all| :: groups[i].canonical < components[all[j]][0]
      invariant forall r <- roots :: r in all[..k]
      invariant forall j :: 0 <= j < k && |components[all[j]]| >= 2 ==> all[j] in index
    {
      var root := all[k];
      var members := components[root];
      assert root !in all[..k];
      if |members| < 2 {
        continue;
      }
      TreesAsGroupsNext(f, roots, groups, index, root, members);
      index := index[root := |groups|];
      groups := groups + [Group(members[0], members, 1.0)];
      roots := roots + [root];
    }
  }

  // ----- confidences

  function Least(s: seq<real>): (m: real)
    requires s != []
    ensures m in s && forall i :: 0 <= i < |s| ==> m <= s[i]
  {
    if |s| == 1 then s[0]
    else
      var rest := Least(s[..|s| - 1]);
      if s[|s| - 1] < rest then s[|s| - 1] else rest
  }

  ghost predicate InForest(f: Forest, edges: seq<ScoredEdge>) {
    forall i :: 0 <= i < |edges| ==> edges[i].a < f.Size()
  }

  /** Some edge in the tree of `r` has confidence `c`. */
  ghost predicate Contributes(f: Forest, edges: seq<ScoredEdge>, r: nat, c: real)
    requires WellFormed(f) && InForest(f, edges)
  {
    exists j :: 0 <= j < |edges| && Root(f, edges[j].a) == r && edges[j].confidence == c
  }

  /** `lists` collects the confidences of `edges` under the roots of their trees. */
  ghost predicate ByTree(f: Forest, edges: seq<ScoredEdge>, lists: map<nat, seq<real>>)
    requires WellFormed(f) && InForest(f, edges)
  {
    && (forall i :: 0 <= i < |edges| ==>
          Root(f, edges[i].a) in lists && edges[i].confidence in lists[Root(f, edges[i].a)])
    && (forall r <- lists :: |lists[r]| > 0 && forall c <- lists[r] :: Contributes(f, edges, r, c))
  }

  lemma ContributesMore(f: Forest, edges: seq<ScoredEdge>, e: ScoredEdge, r: nat, c: real)
    requires WellFormed(f) && InForest(f, edges) && e.a < f.Size()
    requires Contributes(f, edges, r, c) || (Root(f, e.a) == r && e.confidence == c)
    ensures InForest(f, edges + [e]) && Contributes(f, edges + [e], r, c)
  {
    var more := edges + [e];
    assert more[|edges|] == e;
    if Contributes(f, edges, r, c) {
      var j :| 0 <= j < |edges| && Root(f, edges[j].a) == r && edges[j].confidence == c;
      assert more[j] == edges[j];
    }
  }

  lemma ByTreeNext(f: Forest, edges: seq<ScoredEdge>, e: ScoredEdge, lists: map<nat, seq<real>>)
    requires WellFormed(f) && InForest(f, edges) && e.a < f.Size() && ByTree(f, edges, lists)
    ensures InForest(f, edges + [e])
    ensures var r := Root(f, e.a);
            ByTree(f, edges + [e], lists[r := (if r in lists then lists[r] else []) + [e.confidence]])
  {
    hide Contributes, WellFormed;
    var r, more := Root(f, e.a), edges + [e];
    var next := lists[r := (if r in lists then lists[r] else []) + [e.confidence]];
    forall q <- next, c <- next[q]
      ensures Contributes(f, more, q, c)
    {
      ContributesMore(f, edges, e, q, c);
    }
    forall i | 0 <= i < |more|
      ensures Root(f, more[i].a) in next && more[i].confidence in next[Root(f, more[i].a)]
    {
      assert more[i] == if i < |edges| then edges[i] else e;
    }
  }

  method CollectConfidences(uf: UnionFind, edges: seq<ScoredEdge>, ghost f: Forest)
    returns (lists: map<nat, seq<real>>)
    requires Sound(uf.State()) && SameRoots(f, uf.State()) && InForest(f, edges)
    modifies uf`parent
    ensures Sound(uf.State()) && SameRoots(f, uf.State())
    ensures ByTree(f, edges, lists)
  {
    hide RanksEarned;
    lists := map[];
    for k := 0 to |edges|
      invariant Sound(uf.State()) && SameRoots(f, uf.State())
      invariant ByTree(f, edges[..k], lists)
    {
      var e := edges[k];
      assert edges[..k + 1] == edges[..k] + [e];
      SameRootsAfterFind(f, uf.State(), e.a);
      ByTreeNext(f, edges[..k], e, lists);
      var root := uf.Find(e.a);
      lists := lists[root := (if root in lists then lists[root] else []) + [e.confidence]];
    }
    assert edges[..|edges|] == edges;
  }

  /** The confidence `match` gives the group under `root`. */
  function ConfidenceUnder(lists: map<nat, seq<real>>, root: nat): real
    requires forall r <- lists :: |lists[r]| > 0
  {
    if root in lists then Least(lists[root]) else 1.0
  }

  method SetConfidences(
      uf: UnionFind, groups: seq<Group>, lists: map<nat, seq<real>>,
      ghost f: Forest, ghost roots: seq<nat>, ghost index: map<nat, nat>)
    returns (scored: seq<Group>)
    requires Sound(uf.State()) && SameRoots(f, uf.State()) && TreesAsGroups(f, roots, groups, index)
    requires forall r <- lists :: |lists[r]| > 0
    modifies uf`parent
    ensures Sound(uf.State()) && SameRoots(f, uf.State()) && TreesAsGroups(f, roots, scored, index)
    ensures forall i :: 0 <= i < |scored| ==> scored[i].confidence == ConfidenceUnder(lists, roots[i])
  {
    hide RanksEarned, WellFormed, TreesAsGroups;
    SameGroupCount(f, roots, groups, index);
    scored := [];
    for i := 0 to |groups|
      invariant Sound(uf.State()) && SameRoots(f, uf.State())
      invariant |scored| == i
      invariant forall j :: 0 <= j < i ==>
        scored[j] == groups[j].(confidence := ConfidenceUnder(lists, roots[j]))
    {
      var g := groups[i];
      CanonicalInTree(f, roots, groups, index, i);
      SameRootsAfterFind(f, uf.State(), g.canonical);
      var root := uf.Find(g.canonical);
      scored := scored + [g.(confidence := ConfidenceUnder(lists, root))];
    }
    RescoredGroups(f, roots, groups, index, scored);
  }

  lemma SameGroupCount(f: Forest, roots: seq<nat>, groups: seq<Group>, index: map<nat, nat>)
    requires WellFormed(f) && TreesAsGroups(f, roots, groups, index)
    ensures |roots| == |groups|
  {
  }

  lemma CanonicalInTree(f: Forest, roots: seq<nat>, groups: seq<Group>, index: map<nat, nat>, i: nat)
    requires WellFormed(f) && TreesAsGroups(f, roots, groups, index) && i < |groups|
    ensures groups[i].canonical < f.Size() && Root(f, groups[i].canonical) == roots[i]
  {
    assert Lists(f, f.Size(), roots[i], groups[i].members);
  }

  lemma RescoredGroups(f: Forest, roots: seq<nat>, groups: seq<Group>, index: map<nat, nat>, scored: seq<Group>)
    requires WellFormed(f) && TreesAsGroups(f, roots, groups, index) && |scored| == |groups|
    requires forall i :: 0 <= i < |groups| ==> scored[i] == groups[i].(confidence := scored[i].confidence)
    ensures TreesAsGroups(f, roots, scored, index)
  {
    hide Lists, WellFormed;
    forall i | 0 <= i < |scored|
      ensures scored[i].members == groups[i].members && scored[i].canonical == groups[i].canonical
    {
    }
  }

  // ----- the groups are what they should be

  lemma EdgeOfDecision(t: seq<Decision>, d: Decision) returns (i: nat)
    requires d in t && d.verdict.Duplicate?
    ensures i < |ScoredEdges(t)| && ScoredEdges(t)[i] == ScoredEdge(d.a, d.b, d.confidence)
  {
    ScoredEdgesComplete(t);
    i :| 0 <= i < |ScoredEdges(t)| && ScoredEdges(t)[i] == ScoredEdge(d.a, d.b, d.confidence);
  }

  lemma DecisionOfEdge(t: seq<Decision>, i: nat) returns (d: Decision)
    requires i < |ScoredEdges(t)|
    ensures d in t && d.verdict.Duplicate? && ScoredEdges(t)[i] == ScoredEdge(d.a, d.b, d.confidence)
  {
    ScoredEdgesComplete(t);
    assert ScoredEdges(t)[i] in ScoredEdges(t);
    d :| d in t && d.verdict.Duplicate? && ScoredEdges(t)[i] == ScoredEdge(d.a, d.b, d.confidence);
  }

  lemma EdgesInForest(f: Forest, n: nat, t: seq<Decision>)
    requires Clusters(f, n, t)
    ensures InForest(f, ScoredEdges(t))
  {
    forall i | 0 <= i < |ScoredEdges(t)|
      ensures ScoredEdges(t)[i].a < f.Size()
    {
      var d := DecisionOfEdge(t, i);
      assert (d.a, d.b) in DuplicateEdges(t);
    }
  }

  lemma MembersAreClass(f: Forest, n: nat, t: seq<Decision>, r: nat, members: seq<nat>)
    requires Clusters(f, n, t) && Lists(f, n, r, members)
    ensures forall x: nat :: x in members <==> x < n && Connected(DuplicateEdges(t), members[0], x)
  {
    forall x: nat
      ensures x in members <==> x < n && Connected(DuplicateEdges(t), members[0], x)
    {
      if x < n {
        RootsAreComponents(f, DuplicateEdges(t), members[0], x);
      }
    }
  }

  /** A tree of two elements was joined by some decision, so it has a confidence. */
  lemma TreeHasConfidence(f: Forest, n: nat, t: seq<Decision>, lists: map<nat, seq<real>>, r: nat, members: seq<nat>)
    requires Clusters(f, n, t) && Lists(f, n, r, members) && |members| >= 2
    requires InForest(f, ScoredEdges(t)) && ByTree(f, ScoredEdges(t), lists)
    ensures r in lists
  {
    var es := DuplicateEdges(t);
    RootsAreComponents(f, es, members[0], members[1]);
    var z := ConnectedHasEdge(es, members[0], members[1]);
    var e := if (members[0], z) in es then (members[0], z) else (z, members[0]);
    var d :| d in t && d.verdict.Duplicate? && e == (d.a, d.b);
    var i := EdgeOfDecision(t, d);
    assert Root(f, d.a) == r;
  }

  lemma LeastOfTree(f: Forest, n: nat, t: seq<Decision>, lists: map<nat, seq<real>>, r: nat, members: seq<nat>)
    requires Clusters(f, n, t) && Lists(f, n, r, members)
    requires InForest(f, ScoredEdges(t)) && ByTree(f, ScoredEdges(t), lists) && r in lists
    ensures LeastConfidence(t, members, Least(lists[r]))
  {
    var c := Least(lists[r]);
    assert Contributes(f, ScoredEdges(t), r, c);
    var j :| 0 <= j < |ScoredEdges(t)| && Root(f, ScoredEdges(t)[j].a) == r && ScoredEdges(t)[j].confidence == c;
    var d := DecisionOfEdge(t, j);
    assert d.a in members;
    forall d | d in t && d.verdict.Duplicate? && d.a in members
      ensures c <= d.confidence
    {
      var i := EdgeOfDecision(t, d);
      assert Root(f, d.a) == r;
    }
  }

  lemma TreeIsGroup(f: Forest, n: nat, t: seq<Decision>, lists: map<nat, seq<real>>, r: nat, g: Group)
    requires Clusters(f, n, t) && Lists(f, n, r, g.members) && |g.members| >= 2 && g.canonical == g.members[0]
    requires InForest(f, ScoredEdges(t)) && ByTree(f, ScoredEdges(t), lists)
    requires g.confidence == ConfidenceUnder(lists, r)
    ensures IsGroup(n, t, g)
  {
    MembersAreClass(f, n, t, r, g.members);
    TreeHasConfidence(f, n, t, lists, r, g.members);
    LeastOfTree(f, n, t, lists, r, g.members);
  }

  /** Every tree of two elements has a group. */
  ghost predicate Indexed(f: Forest, index: map<nat, nat>)
    requires WellFormed(f)
  {
    forall x, y :: 0 <= x < f.Size() && 0 <= y < f.Size() && x != y && Root(f, x) == Root(f, y)
      ==> Root(f, x) in index
  }

  lemma ComponentsIndexed(f: Forest, components: map<nat, seq<nat>>, index: map<nat, nat>)
    requires WellFormed(f) && GroupsByRoot(f, f.Size(), components)
    requires forall r <- components :: |components[r]| >= 2 ==> r in index
    ensures Indexed(f, index)
  {
    forall x, y | 0 <= x < f.Size() && 0 <= y < f.Size() && x != y && Root(f, x) == Root(f, y)
      ensures Root(f, x) in index
    {
      var r := Root(f, x);
      assert r in components && Lists(f, f.Size(), r, components[r]);
      var i :| 0 <= i < |components[r]| && components[r][i] == x;
      var j :| 0 <= j < |components[r]| && components[r][j] == y;
    }
  }

  lemma TreesAreGrouping(
      f: Forest, n: nat, t: seq<Decision>, lists: map<nat, seq<real>>,
      roots: seq<nat>, groups: seq<Group>, index: map<nat, nat>)
    requires Clusters(f, n, t) && TreesAsGroups(f, roots, groups, index) && Indexed(f, index)
    requires InForest(f, ScoredEdges(t)) && ByTree(f, ScoredEdges(t), lists)
    requires forall i :: 0 <= i < |groups| ==> groups[i].confidence == ConfidenceUnder(lists, roots[i])
    ensures IsGrouping(n, t, groups)
  {
    forall i | 0 <= i < |groups|
      ensures IsGroup(n, t, groups[i])
    {
      TreeIsGroup(f, n, t, lists, roots[i], groups[i]);
    }
    forall x: nat, y: nat | x < n && y < n && x != y && Connected(DuplicateEdges(t), x, y)
      ensures exists i :: 0 <= i < |groups| && x in groups[i].members
    {
      RootsAreComponents(f, DuplicateEdges(t), x, y);
      RowInItsGroup(f, roots, groups, index, x);
    }
  }

  lemma RowInItsGroup(f: Forest, roots: seq<nat>, groups: seq<Group>, index: map<nat, nat>, x: nat)
    requires WellFormed(f) && TreesAsGroups(f, roots, groups, index)
    requires x < f.Size() && Root(f, x) in index
    ensures index[Root(f, x)] < |groups| && x in groups[index[Root(f, x)]].members
  {
    var i := index[Root(f, x)];
    assert Lists(f, f.Size(), roots[i], groups[i].members);
  }

  // ----- decisions point at groups

  method WireDecisions(
      uf: UnionFind, decisions: seq<Decision>, pending: seq<nat>, index: map<nat, nat>, ghost f: Forest)
    returns (wired: seq<Decision>)
    requires Sound(uf.State()) && SameRoots(f, uf.State())
    requires forall p :: p in pending <==> 0 <= p < |decisions| && decisions[p].verdict.Duplicate?
    requires forall p :: 0 <= p < |decisions| ==> decisions[p].a < f.Size()
    modifies uf`parent
    ensures |wired| == |decisions|
    ensures forall p :: 0 <= p < |decisions| ==>
      wired[p] == if decisions[p].verdict.Duplicate?
                  then decisions[p].(groupIndex := GroupUnder(index, Root(f, decisions[p].a)))
                  else decisions[p]
  {
    hide RanksEarned, WellFormed;
    wired := decisions;
    for k := 0 to |pending|
      invariant Sound(uf.State()) && SameRoots(f, uf.State())
      invariant |wired| == |decisions|
      invariant forall p :: 0 <= p < |decisions| ==>
        wired[p] == if p in pending[..k]
                    then decisions[p].(groupIndex := GroupUnder(index, Root(f, decisions[p].a)))
                    else decisions[p]
    {
      var pos := pending[k];
      assert pos in pending;
      var d := wired[pos];
      assert d.a == decisions[pos].a;
      SameRootsAfterFind(f, uf.State(), d.a);
      var root := uf.Find(d.a);
      wired := wired[pos := d.(groupIndex := GroupUnder(index, root))];
      assert pending[..k + 1] == pending[..k] + [pos];
    }
    assert pending[..|pending|] == pending;
  }

  function GroupUnder(index: map<nat, nat>, root: nat): Option<nat> {
    if root in index then Some(index[root]) else None
  }

  lemma WiredCorrectly(
      f: Forest, t: seq<Decision>, roots: seq<nat>, groups: seq<Group>, index: map<nat, nat>, wired: seq<Decision>)
    requires WellFormed(f) && TreesAsGroups(f, roots, groups, index) && Indexed(f, index)
    requires forall k :: 0 <= k < |t| ==> t[k].a < f.Size() && t[k].b < f.Size() && t[k].a != t[k].b
    requires forall k :: 0 <= k < |t| ==> t[k].groupIndex.None?
    requires forall k :: 0 <= k < |t| && t[k].verdict.Duplicate? ==> Root(f, t[k].a) == Root(f, t[k].b)
    requires |wired| == |t|
    requires forall p :: 0 <= p < |t| ==>
      wired[p] == if t[p].verdict.Duplicate? then t[p].(groupIndex := GroupUnder(index, Root(f, t[p].a))) else t[p]
    ensures Wired(t, groups, wired)
  {
    forall k | 0 <= k < |t| && t[k].verdict.Duplicate?
      ensures wired[k].groupIndex.Some? && wired[k].groupIndex.value < |groups|
           && t[k].a in groups[wired[k].groupIndex.value].members
    {
      assert Root(f, t[k].a) in index;
      RowInItsGroup(f, roots, groups, index, t[k].a);
    }
  }

  method OverallConfidence(groups: seq<Group>) returns (c: real)
    ensures LeastGroupConfidence(groups, c)
  {
    c := 1.0;
    for i := 0 to |groups|
      invariant i == 0 ==> c == 1.0
      invariant i > 0 ==> exists j :: 0 <= j < i && groups[j].confidence == c
      invariant forall j :: 0 <= j < i ==> c <= groups[j].confidence
    {
      if i == 0 || groups[i].confidence < c {
        c := groups[i].confidence;
      }
    }
  }
}

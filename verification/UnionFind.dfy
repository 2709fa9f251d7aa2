/** The mutable disjoint-set structure: the two lists it updates in place and
    the loops that update them, proved against the forest specification. */
module UnionFinds {
  import opened Sequences
  import opened Graph
  import opened Forests
  import opened Clustering

  /** `members` lists, in ascending order, the elements below `n` whose root is `r`. */
  ghost predicate Lists(f: Forest, n: nat, r: nat, members: seq<nat>)
    requires WellFormed(f) && n <= f.Size()
  {
    && Ascending(members)
    && |members| > 0
    && (forall i :: 0 <= i < |members| ==> members[i] < n && Root(f, members[i]) == r)
    && (forall x :: 0 <= x < n && Root(f, x) == r ==> x in members)
  }

  /** `groups` lists every tree of `f`, cut at `n`, under its root. */
  ghost predicate GroupsByRoot(f: Forest, n: nat, groups: map<nat, seq<nat>>)
    requires WellFormed(f) && n <= f.Size()
  {
    && (forall r <- groups :: Lists(f, n, r, groups[r]))
    && (forall x :: 0 <= x < n ==> Root(f, x) in groups)
  }

  /** Pointers may differ between `f` and `g`, but no element has changed root. */
  ghost predicate SameRoots(f: Forest, g: Forest) {
    && WellFormed(f) && WellFormed(g) && f.Size() == g.Size() && f.rank == g.rank
    && forall x {:trigger Root(g, x)} :: 0 <= x < f.Size() ==> Root(g, x) == Root(f, x)
  }

  function Appended(groups: map<nat, seq<nat>>, root: nat, x: nat): map<nat, seq<nat>> {
    groups[root := (if root in groups then groups[root] else []) + [x]]
  }

  lemma ListsNext(f: Forest, n: nat, r: nat, members: seq<nat>)
    requires WellFormed(f) && n < f.Size() && Lists(f, n, r, members)
    ensures Lists(f, n + 1, r, if r == Root(f, n) then members + [n] else members)
  {
  }

  lemma ListsFirst(f: Forest, n: nat, groups: map<nat, seq<nat>>)
    requires WellFormed(f) && n < f.Size() && GroupsByRoot(f, n, groups) && Root(f, n) !in groups
    ensures Lists(f, n + 1, Root(f, n), [n])
  {
  }

  lemma GroupNext(f: Forest, n: nat, groups: map<nat, seq<nat>>)
    requires WellFormed(f) && n < f.Size() && GroupsByRoot(f, n, groups)
    ensures GroupsByRoot(f, n + 1, Appended(groups, Root(f, n), n))
  {
    hide Lists, WellFormed;
    var next := Appended(groups, Root(f, n), n);
    forall r <- next
      ensures Lists(f, n + 1, r, next[r])
    {
      if r in groups {
        ListsNext(f, n, r, groups[r]);
      } else {
        ListsFirst(f, n, groups);
        assert next[r] == [n];
      }
    }
  }

  lemma RegroupAfterFind(f: Forest, i: nat, n: nat, groups: map<nat, seq<nat>>)
    requires WellFormed(f) && i < f.Size() && n <= f.Size() && GroupsByRoot(f, n, groups)
    ensures SameRoots(f, Compress(f, i))
    ensures GroupsByRoot(Compress(f, i), n, groups)
  {
    var g := Compress(f, i);
    forall x | 0 <= x < f.Size()
      ensures Root(g, x) == Root(f, x)
    {
      CompressRoot(f, i, x);
    }
    forall r <- groups
      ensures Lists(g, n, r, groups[r])
    {
      assert Lists(f, n, r, groups[r]);
    }
  }

  /** The listed components are the classes of the closure of the united pairs. */
  lemma ComponentsAreClasses(f: Forest, es: set<Edge>, groups: map<nat, seq<nat>>, x: nat, y: nat)
    requires Represents(f, es) && x < f.Size() && y < f.Size()
    requires GroupsByRoot(f, f.Size(), groups)
    ensures (exists r :: r in groups && x in groups[r] && y in groups[r]) <==> Connected(es, x, y)
  {
    RootsAreComponents(f, es, x, y);
    if r :| r in groups && x in groups[r] && y in groups[r] {
      assert Lists(f, f.Size(), r, groups[r]);
    }
    assert Root(f, x) in groups && Lists(f, f.Size(), Root(f, x), groups[Root(f, x)]);
  }

  class UnionFind {
    var parent: seq<nat>
    var rank: seq<nat>

    ghost function State(): Forest
      reads this
    {
      Forest(parent, rank)
    }

    constructor (size: nat)
      ensures State() == Singletons(size)
      ensures Represents(State(), {})
    {
      parent := seq(size, i => i);
      rank := seq(size, _ => 0);
      new;
      SingletonsRepresent(size);
    }

    method Find(x: nat) returns (root: nat)
      requires Sound(State()) && x < |parent|
      modifies this`parent
      ensures root == Root(old(State()), x)
      ensures State() == Compress(old(State()), x)
      ensures Sound(State())
    {
      root := x;
      while parent[root] != root
        invariant root < |parent| && Root(State(), root) == Root(State(), x)
        decreases |parent| - rank[root]
      {
        root := parent[root];
      }
      var y: nat := x;
      ghost var f := State();
      while parent[y] != root
        invariant WellFormed(State()) && State().Size() == f.Size() && y < f.Size() && rank == f.rank
        invariant Root(State(), y) == root
        invariant Compress(State(), y) == Compress(f, x)
        decreases |parent| - rank[y]
      {
        RedirectRoot(State(), y, parent[y]);
        parent, y := parent[y := root], parent[y];
      }
      CompressSound(f, x);
    }

    method Union(a: nat, b: nat)
      requires Sound(State()) && a < |parent| && b < |parent|
      modifies this
      ensures State() == Forests.Union(old(State()), a, b)
      ensures Sound(State())
    {
      var rootA := Find(a);
      var rootB := Find(b);
      CompressRoot(old(State()), a, b);
      if rootA != rootB {
        Attach(rootA, rootB);
      }
    }

    /** Tail of `union`: hang the root of lower rank under the other. */
    method Attach(ra: nat, rb: nat)
      requires |parent| == |rank| && ra < |parent| && rb < |parent|
      modifies this
      ensures State() == Link(old(State()), ra, rb)
      ensures old(rank)[ra] >= old(rank)[rb] ==> parent == old(parent)[rb := ra]
      ensures old(rank)[ra] < old(rank)[rb] ==> parent == old(parent)[ra := rb] && rank == old(rank)
      ensures old(rank)[ra] > old(rank)[rb] ==> rank == old(rank)
      ensures old(rank)[ra] == old(rank)[rb] ==> rank == old(rank)[ra := old(rank)[ra] + 1]
    {
      var rootA, rootB := ra, rb;
      if rank[rootA] < rank[rootB] {
        rootA, rootB := rootB, rootA;
      }
      parent := parent[rootB := rootA];
      if rank[rootA] == rank[rootB] {
        rank := rank[rootA := rank[rootA] + 1];
      }
    }

    /** Every element grouped under its root, ascending within each group. */
    method Components() returns (membersByRoot: map<nat, seq<nat>>)
      requires Sound(State())
      modifies this`parent
      ensures Sound(State()) && SameRoots(old(State()), State())
      ensures GroupsByRoot(State(), |parent|, membersByRoot)
    {
      membersByRoot := map[];
      for i := 0 to |parent|
        invariant Sound(State()) && SameRoots(old(State()), State())
        invariant GroupsByRoot(State(), i, membersByRoot)
      {
        ghost var before := State();
        var root := Find(i);
        RegroupAfterFind(before, i, i, membersByRoot);
        GroupNext(State(), i, membersByRoot);
        membersByRoot := Appended(membersByRoot, root, i);
      }
    }
  }
}

/** What the disjoint-set forest means: after any run of finds and unions its
    trees are the connected components of the united pairs, its chains are
    logarithmic, and the order of the unions does not matter. */
module Clustering {
  import opened Powers
  import opened Graph
  import opened Forests

  /** The forest `f` holds the partition generated by the edges `es`. */
  ghost predicate Represents(f: Forest, es: set<Edge>) {
    && Sound(f)
    && (forall x :: 0 <= x < f.Size() ==> Connected(es, x, Root(f, x)))
    && (forall e <- es :: e.0 < f.Size() && e.1 < f.Size() && Root(f, e.0) == Root(f, e.1))
  }

  /** Same tree if and only if connected by the united pairs. */
  lemma RootsAreComponents(f: Forest, es: set<Edge>, x: nat, y: nat)
    requires Represents(f, es) && x < f.Size() && y < f.Size()
    ensures Root(f, x) == Root(f, y) <==> Connected(es, x, y)
  {
    if Root(f, x) == Root(f, y) {
      ConnectedSym(es, y, Root(f, y));
      ConnectedTrans(es, x, Root(f, x), y);
    }
    if Connected(es, x, y) {
      ColorConstant(es, map z: nat | z < f.Size() :: Root(f, z), x, y);
    }
  }

  function Singletons(n: nat): (f: Forest)
    ensures f.Size() == n && WellFormed(f)
  {
    Forest(seq(n, i => i), seq(n, _ => 0))
  }

  lemma SingletonsRepresent(n: nat)
    ensures Represents(Singletons(n), {})
  {
    var f := Singletons(n);
    forall r | 0 <= r < n
      ensures Pow2(f.rank[r]) <= |Tree(f, r)|
    {
      assert r in Tree(f, r);
    }
    forall x | 0 <= x < n {
      ConnectedRefl({}, x);
    }
  }

  lemma CompressRepresents(f: Forest, es: set<Edge>, x: nat)
    requires Represents(f, es) && x < f.Size()
    ensures Represents(Compress(f, x), es)
  {
    CompressSound(f, x);
    forall y | 0 <= y < f.Size() {
      CompressRoot(f, x, y);
    }
  }

  lemma UnionRepresents(f: Forest, es: set<Edge>, a: nat, b: nat)
    requires Represents(f, es) && a < f.Size() && b < f.Size()
    ensures Represents(Union(f, a, b), es + {(a, b)})
  {
    var g, fs := Union(f, a, b), es + {(a, b)};
    forall e <- fs
      ensures Root(g, e.0) == Root(g, e.1)
    {
      UnionRoots(f, a, b, e.0, e.1);
    }
    forall x | 0 <= x < f.Size()
      ensures Connected(fs, x, Root(g, x))
    {
      UnionConnects(f, es, a, b, x);
    }
  }

  lemma UnionConnects(f: Forest, es: set<Edge>, a: nat, b: nat, x: nat)
    requires Represents(f, es) && a < f.Size() && b < f.Size() && x < f.Size()
    ensures Connected(es + {(a, b)}, x, Root(Union(f, a, b), x))
  {
    var g, fs := Union(f, a, b), es + {(a, b)};
    var y := Root(g, x);
    assert Root(g, y) == y;
    UnionRoots(f, a, b, x, y);
    ConnectedEdge(fs, a, b);
    ConnectedEdge(fs, b, a);
    if Root(f, x) == Root(f, y) {
      SameTreeConnected(f, es, fs, x, y);
    } else if Root(f, x) == Root(f, a) {
      SameTreeConnected(f, es, fs, x, a);
      SameTreeConnected(f, es, fs, b, y);
      ConnectedTrans(fs, x, a, b);
      ConnectedTrans(fs, x, b, y);
    } else {
      SameTreeConnected(f, es, fs, x, b);
      SameTreeConnected(f, es, fs, a, y);
      ConnectedTrans(fs, x, b, a);
      ConnectedTrans(fs, x, a, y);
    }
  }

  lemma SameTreeConnected(f: Forest, es: set<Edge>, fs: set<Edge>, x: nat, y: nat)
    requires Represents(f, es) && x < f.Size() && y < f.Size() && es <= fs
    requires Root(f, x) == Root(f, y)
    ensures Connected(fs, x, y)
  {
    RootsAreComponents(f, es, x, y);
    ConnectedMono(es, fs, x, y);
  }

  // ----- whole runs

  datatype Call = Find(x: nat) | Unite(a: nat, b: nat)

  ghost predicate InRange(calls: seq<Call>, n: nat) {
    forall i :: 0 <= i < |calls| ==>
      match calls[i] case Find(x) => x < n case Unite(a, b) => a < n && b < n
  }

  /** The forest after `calls`, starting from `n` singletons. */
  ghost function Run(n: nat, calls: seq<Call>): (f: Forest)
    requires InRange(calls, n)
    ensures Sound(f) && f.Size() == n
  {
    if calls == [] then
      SingletonsRepresent(n);
      Singletons(n)
    else
      var f := Run(n, calls[..|calls| - 1]);
      match calls[|calls| - 1]
      case Find(x) => CompressSound(f, x); Compress(f, x)
      case Unite(a, b) => Union(f, a, b)
  }

  /** The pairs handed to `union` anywhere in the run. */
  ghost function United(calls: seq<Call>): set<Edge> {
    set c <- calls | c.Unite? :: (c.a, c.b)
  }

  lemma UnitedSnoc(calls: seq<Call>, c: Call)
    ensures United(calls + [c]) == United(calls) + if c.Unite? then {(c.a, c.b)} else {}
  {
    var all := calls + [c];
    assert c in all;
    assert forall d :: d in all <==> d in calls || d == c;
  }

  lemma {:induction false} RunRepresents(n: nat, calls: seq<Call>)
    requires InRange(calls, n)
    ensures Represents(Run(n, calls), United(calls))
  {
    if calls == [] {
      SingletonsRepresent(n);
      assert United(calls) == {};
    } else {
      var before, c := calls[..|calls| - 1], calls[|calls| - 1];
      RunRepresents(n, before);
      assert calls == before + [c];
      UnitedSnoc(before, c);
      if c.Find? {
        CompressRepresents(Run(n, before), United(before), c.x);
        assert United(calls) == United(before);
      } else {
        UnionRepresents(Run(n, before), United(before), c.a, c.b);
      }
    }
  }

  /** The partition after a run is the reflexive-symmetric-transitive closure of
      the pairs united, whatever finds were interleaved. */
  lemma PartitionIsClosure(n: nat, calls: seq<Call>, x: nat, y: nat)
    requires InRange(calls, n) && x < n && y < n
    ensures Root(Run(n, calls), x) == Root(Run(n, calls), y) <==> Connected(United(calls), x, y)
  {
    RunRepresents(n, calls);
    RootsAreComponents(Run(n, calls), United(calls), x, y);
  }

  /** Reordering a run changes no partition. */
  lemma OrderOfUnionsIrrelevant(n: nat, calls: seq<Call>, shuffled: seq<Call>, x: nat, y: nat)
    requires InRange(calls, n) && InRange(shuffled, n) && x < n && y < n
    requires multiset(calls) == multiset(shuffled)
    ensures Root(Run(n, calls), x) == Root(Run(n, calls), y)
       <==> Root(Run(n, shuffled), x) == Root(Run(n, shuffled), y)
  {
    forall c: Call
      ensures c in calls <==> c in shuffled
    {
      assert c in calls <==> c in multiset(calls);
      assert c in shuffled <==> c in multiset(shuffled);
    }
    assert United(calls) == United(shuffled);
    PartitionIsClosure(n, calls, x, y);
    PartitionIsClosure(n, shuffled, x, y);
  }

  /** Chains are logarithmic: 2^hops never exceeds the number of elements, and
      2^rank never exceeds the size of the tree a root heads. */
  lemma ChainsAreLogarithmic(n: nat, calls: seq<Call>, x: nat)
    requires InRange(calls, n) && x < n
    ensures Pow2(Hops(Run(n, calls), x)) <= |Tree(Run(n, calls), Root(Run(n, calls), x))| <= n
    ensures Pow2(Run(n, calls).rank[Root(Run(n, calls), x)])
         <= |Tree(Run(n, calls), Root(Run(n, calls), x))|
  {
    var f := Run(n, calls);
    var r := Root(f, x);
    RangeSize(Tree(f, r), n);
    Pow2Mono(Hops(f, x), f.rank[r]);
  }
}

/** The disjoint-set forest as a value: parent pointers, ranks, and what
    `find`, `union` and any run of them do to it. */
module Forests {
  import opened Powers

  datatype Forest = Forest(parent: seq<nat>, rank: seq<nat>) {
    function Size(): nat {
      |parent|
    }
  }

  /** Parents stay inside the forest and ranks strictly increase towards them. */
  ghost predicate WellFormed(f: Forest) {
    && |f.parent| == |f.rank|
    && (forall x {:trigger f.parent[x]} :: 0 <= x < f.Size() ==> f.parent[x] < f.Size())
    && (forall x {:trigger f.rank[x]} :: 0 <= x < f.Size() ==> f.rank[x] < f.Size())
    && (forall x {:trigger f.parent[x]} :: 0 <= x < f.Size() && f.parent[x] != x ==> f.rank[x] < f.rank[f.parent[x]])
  }

  /** The end of the parent chain from `x`. */
  ghost function Root(f: Forest, x: nat): (r: nat)
    requires WellFormed(f) && x < f.Size()
    ensures r < f.Size() && f.parent[r] == r
    ensures f.rank[x] <= f.rank[r]
    ensures f.parent[x] != x ==> f.rank[x] < f.rank[r]
    ensures f.parent[x] == x ==> r == x
    decreases f.Size() - f.rank[x]
  {
    if f.parent[x] == x then x else Root(f, f.parent[x])
  }

  /** Number of pointers followed from `x` to its root. */
  ghost function Hops(f: Forest, x: nat): (d: nat)
    requires WellFormed(f) && x < f.Size()
    ensures f.rank[x] + d <= f.rank[Root(f, x)]
    decreases f.Size() - f.rank[x]
  {
    if f.parent[x] == x then 0 else 1 + Hops(f, f.parent[x])
  }

  /** `y` lies on the parent chain from `x`, both ends included. */
  ghost predicate OnPath(f: Forest, x: nat, y: nat)
    requires WellFormed(f) && x < f.Size()
    decreases f.Size() - f.rank[x]
  {
    y == x || (f.parent[x] != x && OnPath(f, f.parent[x], y))
  }

  /** The element reached after `k` pointers. */
  ghost function Follow(f: Forest, x: nat, k: nat): (y: nat)
    requires WellFormed(f) && x < f.Size()
    ensures y < f.Size()
  {
    if k == 0 then x else f.parent[Follow(f, x, k - 1)]
  }

  lemma {:induction false} FollowFrom(f: Forest, x: nat, k: nat)
    requires WellFormed(f) && x < f.Size()
    ensures Follow(f, x, k + 1) == Follow(f, f.parent[x], k)
  {
    if k > 0 {
      FollowFrom(f, x, k - 1);
    }
  }

  /** Following that many pointers leads to the root, and no fewer do. */
  lemma {:induction false} HopsLeadToRoot(f: Forest, x: nat)
    requires WellFormed(f) && x < f.Size()
    ensures Follow(f, x, Hops(f, x)) == Root(f, x) && f.parent[Root(f, x)] == Root(f, x)
    ensures forall k: nat :: k < Hops(f, x) ==> f.parent[Follow(f, x, k)] != Follow(f, x, k)
    decreases f.Size() - f.rank[x]
  {
    if f.parent[x] != x {
      HopsLeadToRoot(f, f.parent[x]);
      FollowFrom(f, x, Hops(f, f.parent[x]));
      forall k: nat | k < Hops(f, x)
        ensures f.parent[Follow(f, x, k)] != Follow(f, x, k)
      {
        if k > 0 {
          FollowFrom(f, x, k - 1);
        }
      }
    }
  }

  ghost function Tree(f: Forest, r: nat): set<nat>
    requires WellFormed(f)
  {
    set x | 0 <= x < f.Size() && Root(f, x) == r
  }

  /** A root of rank k heads a tree of at least 2^k elements. */
  ghost predicate RanksEarned(f: Forest)
    requires WellFormed(f)
  {
    forall r {:trigger Tree(f, r)} :: 0 <= r < f.Size() && f.parent[r] == r ==> Pow2(f.rank[r]) <= |Tree(f, r)|
  }

  ghost predicate Sound(f: Forest) {
    WellFormed(f) && RanksEarned(f)
  }

  // ----- path compression

  ghost function Redirect(f: Forest, x: nat): Forest
    requires WellFormed(f) && x < f.Size()
  {
    f.(parent := f.parent[x := Root(f, x)])
  }

  lemma RedirectWellFormed(f: Forest, x: nat)
    requires WellFormed(f) && x < f.Size()
    ensures WellFormed(Redirect(f, x))
  {
  }

  lemma {:induction false} RedirectRoot(f: Forest, x: nat, y: nat)
    requires WellFormed(f) && x < f.Size() && y < f.Size()
    ensures WellFormed(Redirect(f, x))
    ensures Root(Redirect(f, x), y) == Root(f, y)
    decreases f.Size() - f.rank[y]
  {
    RedirectWellFormed(f, x);
    var g := Redirect(f, x);
    if y == x {
      assert Root(g, Root(f, x)) == Root(f, x);
    } else if f.parent[y] != y {
      RedirectRoot(f, x, f.parent[y]);
    }
  }

  /** Second loop of `find`: redirect every element of the chain to its root. */
  ghost function Compress(f: Forest, x: nat): (g: Forest)
    requires WellFormed(f) && x < f.Size()
    ensures WellFormed(g) && g.rank == f.rank && g.Size() == f.Size()
    decreases f.Size() - f.rank[x]
  {
    if f.parent[x] == Root(f, x) then f
    else
      RedirectWellFormed(f, x);
      Compress(Redirect(f, x), f.parent[x])
  }

  /** `find` moves pointers but no root. */
  lemma {:induction false} CompressRoot(f: Forest, x: nat, y: nat)
    requires WellFormed(f) && x < f.Size() && y < f.Size()
    ensures Root(Compress(f, x), y) == Root(f, y)
    decreases f.Size() - f.rank[x]
  {
    if f.parent[x] != Root(f, x) {
      RedirectRoot(f, x, y);
      CompressRoot(Redirect(f, x), f.parent[x], y);
    }
  }

  /** Redirecting an element leaves the chains that start above it alone. */
  lemma {:induction false} RedirectOnPath(f: Forest, x: nat, z: nat, y: nat)
    requires WellFormed(f) && x < f.Size() && z < f.Size() && f.rank[x] < f.rank[z]
    ensures WellFormed(Redirect(f, x))
    ensures OnPath(Redirect(f, x), z, y) == OnPath(f, z, y)
    ensures OnPath(f, z, y) ==> y != x
    decreases f.Size() - f.rank[z]
  {
    RedirectWellFormed(f, x);
    if f.parent[z] != z {
      RedirectOnPath(f, x, f.parent[z], y);
    }
  }

  /** Path compression is exact: everything on the chain of `x` points straight
      at the root, and no other pointer moves. */
  lemma {:induction false} CompressExact(f: Forest, x: nat, y: nat)
    requires WellFormed(f) && x < f.Size() && y < f.Size()
    ensures Compress(f, x).parent[y] == if OnPath(f, x, y) then Root(f, x) else f.parent[y]
    decreases f.Size() - f.rank[x]
  {
    var r := Root(f, x);
    if f.parent[x] == r {
      if f.parent[x] != x {
        assert OnPath(f, r, y) == (y == r);
      }
    } else {
      var p := f.parent[x];
      var g := Redirect(f, x);
      RedirectRoot(f, x, p);
      CompressExact(g, p, y);
      RedirectOnPath(f, x, p, y);
    }
  }

  lemma SameTrees(f: Forest, g: Forest)
    requires WellFormed(f) && WellFormed(g) && f.Size() == g.Size() && f.rank == g.rank
    requires forall y :: 0 <= y < f.Size() ==> Root(g, y) == Root(f, y)
    requires RanksEarned(f)
    ensures RanksEarned(g)
  {
    forall r | 0 <= r < g.Size() && g.parent[r] == r
      ensures Pow2(g.rank[r]) <= |Tree(g, r)|
    {
      assert Root(f, r) == Root(g, r) == r;
      assert f.parent[r] == r;
      assert Tree(g, r) == Tree(f, r);
    }
  }

  lemma CompressSound(f: Forest, x: nat)
    requires Sound(f) && x < f.Size()
    ensures Sound(Compress(f, x))
  {
    forall y | 0 <= y < f.Size() {
      CompressRoot(f, x, y);
    }
    SameTrees(f, Compress(f, x));
  }

  // ----- union by rank

  /** The root that stays and the root that is hung under it. */
  function Winner(f: Forest, ra: nat, rb: nat): nat
    requires ra < |f.rank| && rb < |f.rank|
  {
    if f.rank[ra] < f.rank[rb] then rb else ra
  }

  function Loser(f: Forest, ra: nat, rb: nat): nat
    requires ra < |f.rank| && rb < |f.rank|
  {
    if f.rank[ra] < f.rank[rb] then ra else rb
  }

  function Link(f: Forest, ra: nat, rb: nat): Forest
    requires |f.rank| == |f.parent| && ra < f.Size() && rb < f.Size()
  {
    var w, l := Winner(f, ra, rb), Loser(f, ra, rb);
    Forest(f.parent[l := w], if f.rank[w] == f.rank[l] then f.rank[w := f.rank[w] + 1] else f.rank)
  }

  lemma {:induction false} RangeSize(s: set<nat>, n: nat)
    requires forall x <- s :: x < n
    ensures |s| <= n
  {
    if n > 0 {
      RangeSize(s - {n - 1}, n - 1);
    } else {
      assert s == {};
    }
  }

  lemma TwoTreesFit(f: Forest, ra: nat, rb: nat)
    requires WellFormed(f) && ra < f.Size() && rb < f.Size() && ra != rb
    ensures |Tree(f, ra)| + |Tree(f, rb)| <= f.Size()
  {
    var u := Tree(f, ra) + Tree(f, rb);
    RangeSize(u, f.Size());
    assert Tree(f, ra) !! Tree(f, rb);
  }

  lemma LinkWellFormed(f: Forest, ra: nat, rb: nat)
    requires Sound(f) && ra < f.Size() && rb < f.Size() && ra != rb
    requires f.parent[ra] == ra && f.parent[rb] == rb
    ensures WellFormed(Link(f, ra, rb))
  {
    if f.rank[ra] == f.rank[rb] {
      TwoTreesFit(f, ra, rb);
      Pow2Grows(f.rank[ra] + 1);
    }
  }

  lemma {:induction false} LinkRoot(f: Forest, ra: nat, rb: nat, y: nat)
    requires Sound(f) && ra < f.Size() && rb < f.Size() && ra != rb && y < f.Size()
    requires f.parent[ra] == ra && f.parent[rb] == rb
    ensures WellFormed(Link(f, ra, rb))
    ensures Root(Link(f, ra, rb), y) ==
            if Root(f, y) == ra || Root(f, y) == rb then Winner(f, ra, rb) else Root(f, y)
    decreases f.Size() - f.rank[y]
  {
    LinkWellFormed(f, ra, rb);
    var g := Link(f, ra, rb);
    var w := Winner(f, ra, rb);
    assert Root(g, w) == w;
    if f.parent[y] != y {
      LinkRoot(f, ra, rb, f.parent[y]);
    }
  }

  lemma LinkTree(f: Forest, ra: nat, rb: nat, r: nat)
    requires Sound(f) && ra < f.Size() && rb < f.Size() && ra != rb && r < f.Size()
    requires f.parent[ra] == ra && f.parent[rb] == rb
    requires r != Loser(f, ra, rb)
    ensures WellFormed(Link(f, ra, rb))
    ensures Tree(Link(f, ra, rb), r) ==
            if r == Winner(f, ra, rb) then Tree(f, ra) + Tree(f, rb) else Tree(f, r)
  {
    LinkWellFormed(f, ra, rb);
    forall y | 0 <= y < f.Size()
      ensures y in Tree(Link(f, ra, rb), r) <==>
              y in if r == Winner(f, ra, rb) then Tree(f, ra) + Tree(f, rb) else Tree(f, r)
    {
      LinkRoot(f, ra, rb, y);
    }
  }

  lemma LinkRankEarned(f: Forest, ra: nat, rb: nat, r: nat)
    requires Sound(f) && ra < f.Size() && rb < f.Size() && ra != rb && r < f.Size()
    requires f.parent[ra] == ra && f.parent[rb] == rb
    requires WellFormed(Link(f, ra, rb)) && Link(f, ra, rb).parent[r] == r
    ensures Pow2(Link(f, ra, rb).rank[r]) <= |Tree(Link(f, ra, rb), r)|
  {
    LinkTree(f, ra, rb, r);
    if r == Winner(f, ra, rb) {
      assert Tree(f, ra) !! Tree(f, rb);
      assert Pow2(f.rank[ra]) <= |Tree(f, ra)| && Pow2(f.rank[rb]) <= |Tree(f, rb)|;
    } else {
      assert f.parent[r] == r;
    }
  }

  lemma LinkSound(f: Forest, ra: nat, rb: nat)
    requires Sound(f) && ra < f.Size() && rb < f.Size() && ra != rb
    requires f.parent[ra] == ra && f.parent[rb] == rb
    ensures Sound(Link(f, ra, rb))
  {
    LinkWellFormed(f, ra, rb);
    var g := Link(f, ra, rb);
    forall r | 0 <= r < g.Size() && g.parent[r] == r
      ensures Pow2(g.rank[r]) <= |Tree(g, r)|
    {
      LinkRankEarned(f, ra, rb, r);
    }
  }

  /** The forest after the two finds of `union`. */
  ghost function FindBoth(f: Forest, a: nat, b: nat): (g: Forest)
    requires Sound(f) && a < f.Size() && b < f.Size()
    ensures Sound(g) && g.Size() == f.Size()
  {
    CompressSound(f, a);
    CompressSound(Compress(f, a), b);
    Compress(Compress(f, a), b)
  }

  lemma FindBothRoot(f: Forest, a: nat, b: nat, y: nat)
    requires Sound(f) && a < f.Size() && b < f.Size() && y < f.Size()
    ensures Root(FindBoth(f, a, b), y) == Root(f, y)
    ensures f.parent[y] == y ==> FindBoth(f, a, b).parent[y] == y
  {
    CompressRoot(f, a, y);
    CompressRoot(Compress(f, a), b, y);
  }

  /** `union`: two finds, each compressing its chain, then a link by rank. */
  ghost function Union(f: Forest, a: nat, b: nat): (g: Forest)
    requires Sound(f) && a < f.Size() && b < f.Size()
    ensures Sound(g) && g.Size() == f.Size()
  {
    var ra, rb := Root(f, a), Root(f, b);
    if ra == rb then FindBoth(f, a, b)
    else
      FindBothRoot(f, a, b, ra);
      FindBothRoot(f, a, b, rb);
      LinkSound(FindBoth(f, a, b), ra, rb);
      Link(FindBoth(f, a, b), ra, rb)
  }

  /** Union merges exactly the two trees concerned. */
  lemma UnionRoots(f: Forest, a: nat, b: nat, x: nat, y: nat)
    requires Sound(f) && a < f.Size() && b < f.Size() && x < f.Size() && y < f.Size()
    ensures Root(Union(f, a, b), x) == Root(Union(f, a, b), y)
       <==> (Root(f, x) == Root(f, y)
             || (Root(f, x) == Root(f, a) && Root(f, y) == Root(f, b))
             || (Root(f, x) == Root(f, b) && Root(f, y) == Root(f, a)))
  {
    var ra, rb := Root(f, a), Root(f, b);
    FindBothRoot(f, a, b, x);
    FindBothRoot(f, a, b, y);
    if ra != rb {
      FindBothRoot(f, a, b, ra);
      FindBothRoot(f, a, b, rb);
      LinkRoot(FindBoth(f, a, b), ra, rb, x);
      LinkRoot(FindBoth(f, a, b), ra, rb, y);
    }
  }
}

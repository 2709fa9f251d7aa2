/** Undirected connectivity: the reference notion against which clustering is
    judged.  Two vertices are connected when a walk joins them, each step of
    which follows an edge in either direction. */
module Graph {

  type Edge = (nat, nat)

  ghost predicate Linked(es: set<Edge>, x: nat, y: nat) {
    (x, y) in es || (y, x) in es
  }

  ghost predicate IsWalk(es: set<Edge>, p: seq<nat>) {
    |p| > 0 && forall i :: 0 <= i < |p| - 1 ==> Linked(es, p[i], p[i + 1])
  }

  ghost predicate WalkBetween(es: set<Edge>, p: seq<nat>, x: nat, y: nat) {
    IsWalk(es, p) && p[0] == x && p[|p| - 1] == y
  }

  /** The reflexive-symmetric-transitive closure of the edges. */
  ghost predicate Connected(es: set<Edge>, x: nat, y: nat) {
    exists p :: WalkBetween(es, p, x, y)
  }

  lemma ConnectedRefl(es: set<Edge>, x: nat)
    ensures Connected(es, x, x)
  {
    assert WalkBetween(es, [x], x, x);
  }

  lemma ConnectedEdge(es: set<Edge>, x: nat, y: nat)
    requires Linked(es, x, y)
    ensures Connected(es, x, y)
  {
    assert WalkBetween(es, [x, y], x, y);
  }

  lemma ConnectedTrans(es: set<Edge>, x: nat, y: nat, z: nat)
    requires Connected(es, x, y) && Connected(es, y, z)
    ensures Connected(es, x, z)
  {
    var p :| WalkBetween(es, p, x, y);
    var q :| WalkBetween(es, q, y, z);
    var w := p + q[1..];
    forall i | 0 <= i < |w| - 1
      ensures Linked(es, w[i], w[i + 1])
    {
      if i == |p| - 1 {
        assert Linked(es, q[0], q[1]);
      } else if i >= |p| {
        assert Linked(es, q[i - |p| + 1], q[i - |p| + 2]);
      }
    }
    assert WalkBetween(es, w, x, z);
  }

  function Reversed(p: seq<nat>): (r: seq<nat>)
    ensures |r| == |p|
    ensures forall i :: 0 <= i < |p| ==> r[i] == p[|p| - 1 - i]
  {
    seq(|p|, i requires 0 <= i < |p| => p[|p| - 1 - i])
  }

  lemma ConnectedSym(es: set<Edge>, x: nat, y: nat)
    requires Connected(es, x, y)
    ensures Connected(es, y, x)
  {
    var p :| WalkBetween(es, p, x, y);
    var r := Reversed(p);
    forall i | 0 <= i < |r| - 1
      ensures Linked(es, r[i], r[i + 1])
    {
      assert Linked(es, p[|p| - 2 - i], p[|p| - 2 - i + 1]);
    }
    assert WalkBetween(es, r, y, x);
  }

  /** An equivalence that contains every edge contains every connected pair:
      `color` is constant along each edge, hence along each walk. */
  lemma {:induction false} ColorConstantOnWalk(es: set<Edge>, color: map<nat, nat>, p: seq<nat>)
    requires IsWalk(es, p)
    requires forall e <- es :: e.0 in color && e.1 in color && color[e.0] == color[e.1]
    ensures |p| > 1 ==> p[0] in color && p[|p| - 1] in color && color[p[0]] == color[p[|p| - 1]]
  {
    if |p| > 1 {
      assert Linked(es, p[0], p[1]);
      var q := p[1..];
      forall i | 0 <= i < |q| - 1
        ensures Linked(es, q[i], q[i + 1])
      {
        assert Linked(es, p[i + 1], p[i + 1 + 1]);
      }
      ColorConstantOnWalk(es, color, q);
    }
  }

  lemma ColorConstant(es: set<Edge>, color: map<nat, nat>, x: nat, y: nat)
    requires Connected(es, x, y)
    requires forall e <- es :: e.0 in color && e.1 in color && color[e.0] == color[e.1]
    requires x in color
    ensures y in color && color[x] == color[y]
  {
    var p :| WalkBetween(es, p, x, y);
    ColorConstantOnWalk(es, color, p);
  }

  /** A set of vertices that no edge leaves or enters holds all or none of a component. */
  lemma ClosedSet(es: set<Edge>, inside: set<nat>, x: nat, y: nat)
    requires Connected(es, x, y)
    requires forall e <- es :: e.0 in inside <==> e.1 in inside
    ensures x in inside <==> y in inside
  {
    var ends := (set e | e in es :: e.0) + (set e | e in es :: e.1) + {x};
    var color := map v | v in ends :: if v in inside then 1 else 0;
    ColorConstant(es, color, x, y);
  }

  /** If every edge of `es` joins vertices connected in `fs`, then whatever is
      connected in `es` is connected in `fs`. */
  lemma {:induction false} WalkSubsumed(es: set<Edge>, fs: set<Edge>, p: seq<nat>)
    requires IsWalk(es, p)
    requires forall e <- es :: Connected(fs, e.0, e.1)
    ensures Connected(fs, p[0], p[|p| - 1])
  {
    if |p| == 1 {
      ConnectedRefl(fs, p[0]);
    } else {
      assert Linked(es, p[0], p[1]);
      if (p[0], p[1]) !in es {
        ConnectedSym(fs, p[1], p[0]);
      }
      var q := p[1..];
      forall i | 0 <= i < |q| - 1
        ensures Linked(es, q[i], q[i + 1])
      {
        assert Linked(es, p[i + 1], p[i + 1 + 1]);
      }
      WalkSubsumed(es, fs, q);
      ConnectedTrans(fs, p[0], p[1], p[|p| - 1]);
    }
  }

  lemma ConnectedSubsumed(es: set<Edge>, fs: set<Edge>, x: nat, y: nat)
    requires Connected(es, x, y)
    requires forall e <- es :: Connected(fs, e.0, e.1)
    ensures Connected(fs, x, y)
  {
    var p :| WalkBetween(es, p, x, y);
    WalkSubsumed(es, fs, p);
  }

  lemma ConnectedMono(es: set<Edge>, fs: set<Edge>, x: nat, y: nat)
    requires es <= fs && Connected(es, x, y)
    ensures Connected(fs, x, y)
  {
    var p :| WalkBetween(es, p, x, y);
    forall i | 0 <= i < |p| - 1
      ensures Linked(fs, p[i], p[i + 1])
    {
      assert Linked(es, p[i], p[i + 1]);
    }
    assert WalkBetween(fs, p, x, y);
  }

  /** A vertex connected to a different vertex has an edge of its own. */
  lemma ConnectedHasEdge(es: set<Edge>, x: nat, y: nat) returns (z: nat)
    requires Connected(es, x, y) && x != y
    ensures Linked(es, x, z)
  {
    var p :| WalkBetween(es, p, x, y);
    z := p[1];
    assert Linked(es, p[0], p[0 + 1]);
  }
}

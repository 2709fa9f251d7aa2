/** The order in which a bounded pass works through what is due: by time, then by
    identifier, a fixed number of items at most. */
module Batch {
  import opened Sequences

  type Time = int

  predicate Precedes(t: Time, id: nat, t': Time, id': nat) {
    t < t' || (t == t' && id < id')
  }

  /** `chosen` are the first items of `due`, in order. */
  ghost predicate Prefix(due: map<nat, Time>, chosen: seq<nat>) {
    && (forall i :: 0 <= i < |chosen| ==> chosen[i] in due)
    && (forall i, j :: 0 <= i < j < |chosen| ==> Precedes(due[chosen[i]], chosen[i], due[chosen[j]], chosen[j]))
    && (forall i, id | 0 <= i < |chosen| && id in due && id !in chosen ::
          Precedes(due[chosen[i]], chosen[i], due[id], id))
  }

  /** `chosen` are the first `k` items of `due`, or all of them if there are fewer. */
  ghost predicate FirstOf(due: map<nat, Time>, k: nat, chosen: seq<nat>) {
    Prefix(due, chosen) && |chosen| <= k && (|chosen| < k ==> forall id <- due :: id in chosen)
  }

  /** `id` comes before everything else in `due` that is not yet chosen. */
  ghost predicate Earliest(due: map<nat, Time>, chosen: seq<nat>, id: nat) {
    && id in due && id !in chosen
    && forall x <- due :: x !in chosen && x != id ==> Precedes(due[id], id, due[x], x)
  }

  lemma PrefixNext(due: map<nat, Time>, chosen: seq<nat>, id: nat)
    requires Prefix(due, chosen) && Earliest(due, chosen, id)
    ensures Prefix(due, chosen + [id])
  {
  }

  /** A pass has no freedom: the first `k` items are determined. */
  lemma {:induction false} FirstOfUnique(due: map<nat, Time>, k: nat, c: seq<nat>, d: seq<nat>)
    requires FirstOf(due, k, c) && FirstOf(due, k, d)
    ensures c == d
  {
    var n := if |c| < |d| then |c| else |d|;
    SamePrefix(due, c, d, n);
    assert forall i :: 0 <= i < n ==> c[i] == c[..n][i] == d[..n][i] == d[i];
    PrefixSize(due, c);
    PrefixSize(due, d);
    assert c == c[..n] && d == d[..n];
  }

  lemma PrefixSize(due: map<nat, Time>, chosen: seq<nat>)
    requires Prefix(due, chosen)
    ensures |chosen| <= |due|
    ensures (forall id <- due :: id in chosen) ==> |chosen| == |due|
  {
    var s := set x | x in chosen;
    DistinctSeqSize(chosen);
    assert s <= due.Keys;
    assert due.Keys == s + (due.Keys - s);
    assert |due| == |due.Keys|;
  }

  lemma {:induction false} SamePrefix(due: map<nat, Time>, c: seq<nat>, d: seq<nat>, n: nat)
    requires Prefix(due, c) && Prefix(due, d) && n <= |c| && n <= |d|
    ensures c[..n] == d[..n]
  {
    if n > 0 {
      SamePrefix(due, c, d, n - 1);
      var m := n - 1;
      assert forall i :: 0 <= i < m ==> c[i] == c[..m][i] == d[..m][i] == d[i];
      NotBoth(due, c, d, m);
      assert c[..n] == c[..m] + [c[m]] && d[..n] == d[..m] + [d[m]];
    }
  }

  /** Two prefixes that agree up to `m` cannot differ there. */
  lemma NotBoth(due: map<nat, Time>, c: seq<nat>, d: seq<nat>, m: nat)
    requires Prefix(due, c) && Prefix(due, d) && m < |c| && m < |d|
    requires forall i :: 0 <= i < m ==> c[i] == d[i]
    ensures c[m] == d[m]
  {
    var x, y := c[m], d[m];
    if x != y {
      assert Precedes(due[x], x, due[y], y) by {
        if y in c {
          var j :| 0 <= j < |c| && c[j] == y;
          assert j > m;
        }
      }
      assert Precedes(due[y], y, due[x], x) by {
        if x in d {
          var j :| 0 <= j < |d| && d[j] == x;
          assert j > m;
        }
      }
    }
  }
}

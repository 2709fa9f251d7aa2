/** Ascending and duplicate-free sequences, counted as sets. */
module Sequences {

  ghost predicate Ascending(s: seq<nat>) {
    forall i, j :: 0 <= i < j < |s| ==> s[i] < s[j]
  }

  function Elements(s: seq<nat>): (t: set<nat>)
    ensures forall x :: x in t <==> x in s
  {
    set x | x in s
  }

  lemma {:induction false} AscendingSize(s: seq<nat>)
    requires Ascending(s)
    ensures |Elements(s)| == |s|
  {
    if s != [] {
      var front, last := s[..|s| - 1], s[|s| - 1];
      AscendingSize(front);
      assert last !in front;
      assert Elements(s) == Elements(front) + {last};
    }
  }

  lemma {:induction false} DistinctSeqSize<T>(s: seq<T>)
    requires forall i, j :: 0 <= i < j < |s| ==> s[i] != s[j]
    ensures |set x | x in s| == |s|
  {
    if s != [] {
      var front, last := s[..|s| - 1], s[|s| - 1];
      DistinctSeqSize(front);
      assert (set x | x in s) == (set x | x in front) + {last};
      assert last !in front;
    }
  }

  /** The places where `P` holds. */
  ghost function Places<T>(s: seq<T>, P: T -> bool): set<nat> {
    set i: nat | i < |s| && P(s[i])
  }

  lemma PlacesSnoc<T>(s: seq<T>, e: T, P: T -> bool)
    ensures Places([], P) == {}
    ensures |Places(s + [e], P)| == |Places(s, P)| + if P(e) then 1 else 0
  {
    var more := s + [e];
    forall i: nat
      ensures i in Places(more, P) <==> i in Places(s, P) || (i == |s| && P(e))
    {
      if i < |s| {
        assert more[i] == s[i];
      }
    }
    assert Places(more, P) == Places(s, P) + if P(e) then {|s|} else {};
  }

  /** Each element of `s` with `m` before it. */
  ghost function Beside(m: nat, s: set<nat>): set<(nat, nat)> {
    set i: nat | i in s :: (m, i)
  }

  lemma {:induction false} BesideSize(m: nat, s: set<nat>)
    ensures |Beside(m, s)| == |s|
    decreases s
  {
    if s == {} {
      assert Beside(m, s) == {};
    } else {
      var x :| x in s;
      BesideSize(m, s - {x});
      assert (m, x) !in Beside(m, s - {x});
      assert Beside(m, s) == Beside(m, s - {x}) + {(m, x)};
    }
  }

  /** The elements of all the sets, each with the number of its set. */
  ghost function Numbered(sets: seq<set<nat>>): set<(nat, nat)> {
    set k: nat, i: nat | k < |sets| && i in sets[k] :: (k, i)
  }

  lemma NumberedSnoc(sets: seq<set<nat>>, last: set<nat>)
    ensures |Numbered(sets + [last])| == |Numbered(sets)| + |last|
  {
    var n, all := |sets|, sets + [last];
    var before := Numbered(sets);
    assert forall k :: 0 <= k < n ==> all[k] == sets[k];
    forall q
      ensures q in Numbered(all) <==> q in before + Beside(n, last)
    {
    }
    assert Numbered(all) == before + Beside(n, last);
    assert before !! Beside(n, last);
    BesideSize(n, last);
  }

  function Sum(s: seq<nat>): nat {
    if s == [] then 0 else s[0] + Sum(s[1..])
  }

  lemma {:induction false} SumSnoc(s: seq<nat>, x: nat)
    ensures Sum(s + [x]) == Sum(s) + x
  {
    if s == [] {
      assert s + [x] == [x];
    } else {
      assert (s + [x])[1..] == s[1..] + [x];
      SumSnoc(s[1..], x);
    }
  }
}

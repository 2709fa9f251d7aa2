/** Matching followed by export: what survives, and that nothing is lost or doubled. */
module ExportTheorems {
  import opened Wrappers
  import opened Sequences
  import opened Graph
  import opened Tables
  import opened MatchSpec
  import opened MatchAudit
  import opened MatchRefinement
  import opened Export
  import opened MatchEngine

  lemma SubsetSameSize(s: set<nat>, t: set<nat>)
    requires s <= t && |s| == |t|
    ensures s == t
  {
    assert t == s + (t - s);
    assert |t - s| == 0;
  }

  /** An ascending list is determined by its elements. */
  lemma {:induction false} AscendingUnique(s: seq<nat>, t: seq<nat>)
    requires Ascending(s) && Ascending(t) && Elements(s) == Elements(t)
    ensures s == t
  {
    AscendingSize(s);
    AscendingSize(t);
    if s != [] {
      var p, q, a, b := s[..|s| - 1], t[..|t| - 1], s[|s| - 1], t[|t| - 1];
      assert a in Elements(t) && b in Elements(s);
      assert a == b;
      assert Elements(p) == Elements(s) - {a} && Elements(q) == Elements(t) - {b};
      AscendingUnique(p, q);
      assert s == p + [a] && t == q + [b];
    }
  }

  /** The loaded groups are the groups of the match. */
  ghost predicate Faithful(groups: seq<Group>, loaded: seq<GroupInput>) {
    |loaded| == |groups| && forall i :: 0 <= i < |groups| ==>
      loaded[i] == GroupInput(i, groups[i].canonical, |groups[i].members|, groups[i].members)
  }

  lemma NamedRowsInGroup(
      inp: Input, r: MatchResult, t: seq<Decision>, chains: nat, keys: seq<string>, i: nat)
    requires ValidInput(inp) && Correct(inp, r, t, chains, keys) && i < |r.groups|
    ensures Ascending(r.groups[i].members)
    ensures NamedRows(r.decisions, i, r.groups[i].canonical) <= Elements(r.groups[i].members)
  {
    hide FullTrace, Wired, Tallied, SkipRecords, KeptPairs, NamedRows;
    assert IsGroup(|inp.rows|, t, r.groups[i]);
    forall x | x in NamedRows(r.decisions, i, r.groups[i].canonical)
      ensures x in r.groups[i].members
    {
      NamedRowsMeaning(r.decisions, i, r.groups[i].canonical, x);
      if Named(r.decisions, i, x) {
        NamedIsMember(inp, r, t, chains, keys, i, x);
      }
    }
  }

  /** Counting is enough: however many decisions the cap dropped, a group whose named
      rows are as many as its record count has been recovered exactly. */
  lemma LoadedGroupExact(
      inp: Input, r: MatchResult, t: seq<Decision>, chains: nat, keys: seq<string>, i: nat, members: seq<nat>)
    requires ValidInput(inp) && Correct(inp, r, t, chains, keys) && i < |r.groups| && Ascending(members)
    requires forall x :: x in members <==> x in NamedRows(r.decisions, i, r.groups[i].canonical)
    requires |NamedRows(r.decisions, i, r.groups[i].canonical)| == |r.groups[i].members|
    ensures members == r.groups[i].members
  {
    hide Correct, NamedRows;
    var named := NamedRows(r.decisions, i, r.groups[i].canonical);
    NamedRowsInGroup(inp, r, t, chains, keys, i);
    AscendingSize(r.groups[i].members);
    SubsetSameSize(named, Elements(r.groups[i].members));
    assert Elements(members) == named;
    AscendingUnique(members, r.groups[i].members);
  }

  /** Every row of the group is its canonical row or is named by a stored decision. */
  ghost predicate FullyNamed(r: MatchResult, i: nat)
    requires i < |r.groups|
  {
    forall x :: x in r.groups[i].members ==> x == r.groups[i].canonical || Named(r.decisions, i, x)
  }

  /** A group's rows are recovered in the right number exactly when none was dropped. */
  lemma LoadsIffNamed(
      inp: Input, r: MatchResult, t: seq<Decision>, chains: nat, keys: seq<string>, i: nat)
    requires ValidInput(inp) && Correct(inp, r, t, chains, keys) && i < |r.groups|
    ensures |NamedRows(r.decisions, i, r.groups[i].canonical)| == |r.groups[i].members| <==> FullyNamed(r, i)
  {
    hide Correct, NamedRows, Named;
    var members := r.groups[i].members;
    var named := NamedRows(r.decisions, i, r.groups[i].canonical);
    NamedRowsInGroup(inp, r, t, chains, keys, i);
    AscendingSize(members);
    forall x: nat | x in members
      ensures x in named <==> x == r.groups[i].canonical || Named(r.decisions, i, x)
    {
      NamedRowsMeaning(r.decisions, i, r.groups[i].canonical, x);
    }
    if |named| == |members| {
      SubsetSameSize(named, Elements(members));
    }
    if FullyNamed(r, i) {
      assert named == Elements(members);
    }
  }

  /** Below the cap every group's rows are all named, so loading cannot fail. */
  lemma LoadingSucceeds(
      inp: Input, r: MatchResult, t: seq<Decision>, chains: nat, keys: seq<string>, i: nat)
    requires ValidInput(inp) && Correct(inp, r, t, chains, keys) && i < |r.groups|
    requires |t| <= inp.limits.maxPersistedDecisions
    ensures FullyNamed(r, i)
  {
    hide Correct, Named;
    forall x | x in r.groups[i].members
      ensures Named(r.decisions, i, x)
    {
      NamedExactly(inp, r, t, chains, keys, i, x);
    }
  }

  /** Match, store, reload: the export sees the groups of the match, or nothing. */
  method MatchAndLoad(inp: Input)
    returns (r: MatchResult, loaded: Result<seq<GroupInput>, LoadError>,
             ghost t: seq<Decision>, ghost chains: nat, ghost keys: seq<string>)
    requires ValidInput(inp)
    ensures Correct(inp, r, t, chains, keys)
    ensures loaded.Ok? ==> Faithful(r.groups, loaded.value)
    ensures loaded.Ok? <==> forall i :: 0 <= i < |r.groups| ==> FullyNamed(r, i)
    ensures |t| <= inp.limits.maxPersistedDecisions ==> loaded.Ok?
  {
    hide Correct, NamedRows, FullyNamed;
    r, t, chains, keys := Match(inp);
    loaded := LoadGroups(r.groups, r.decisions);
    forall i | 0 <= i < |r.groups|
      ensures |NamedRows(r.decisions, i, r.groups[i].canonical)| == |r.groups[i].members| <==> FullyNamed(r, i)
      ensures |t| <= inp.limits.maxPersistedDecisions ==> FullyNamed(r, i)
    {
      LoadsIffNamed(inp, r, t, chains, keys, i);
      if |t| <= inp.limits.maxPersistedDecisions {
        LoadingSucceeds(inp, r, t, chains, keys, i);
      }
    }
    if loaded.Ok? {
      forall i | 0 <= i < |r.groups|
        ensures loaded.value[i].members == r.groups[i].members
      {
        LoadedGroupExact(inp, r, t, chains, keys, i, loaded.value[i].members);
      }
    }
  }

  // ----- what survives

  /** No lower row is in the same class. */
  ghost predicate LowestOfClass(inp: Input, x: nat)
    requires ValidInput(inp)
  {
    x < |inp.rows| && forall y: nat :: y < x ==> !Connected(NaiveEdges(inp), x, y)
  }

  lemma ExcludedMeaning(groups: seq<Group>, loaded: seq<GroupInput>, x: nat)
    requires Faithful(groups, loaded)
    ensures Excluded(loaded, x) <==> exists i :: 0 <= i < |groups| && x in groups[i].members && x != groups[i].canonical
  {
    if Excluded(loaded, x) {
      var j :| 0 <= j < |loaded| && ExcludedBy(loaded[j], x);
      assert x in groups[j].members && x != groups[j].canonical;
    }
    if i :| 0 <= i < |groups| && x in groups[i].members && x != groups[i].canonical {
      assert ExcludedBy(loaded[i], x);
    }
  }

  /** A row with a lower class mate is excluded. */
  lemma LowerMateExcludes(
      inp: Input, r: MatchResult, t: seq<Decision>, chains: nat, keys: seq<string>,
      loaded: seq<GroupInput>, x: nat, y: nat)
    requires ValidInput(inp) && Correct(inp, r, t, chains, keys) && Faithful(r.groups, loaded)
    requires y < x < |inp.rows| && Connected(NaiveEdges(inp), x, y)
    ensures Excluded(loaded, x)
  {
    hide FullTrace, Wired, Tallied, SkipRecords, KeptPairs, IsGrouping, Faithful, NaiveEdges;
    GroupsAreNaiveClasses(inp, r, t, chains, keys, x, y);
    var i :| 0 <= i < |r.groups| && x in r.groups[i].members && y in r.groups[i].members;
    GroupBasics(|inp.rows|, t, r.groups, i);
    LowestIsLeast(r.groups[i].members, y);
    ExcludedMeaning(r.groups, loaded, x);
  }

  /** An excluded row has a lower class mate, the canonical row of its group. */
  lemma ExcludedHasLowerMate(
      inp: Input, r: MatchResult, t: seq<Decision>, chains: nat, keys: seq<string>, loaded: seq<GroupInput>, x: nat)
    returns (c: nat)
    requires ValidInput(inp) && Correct(inp, r, t, chains, keys) && Faithful(r.groups, loaded)
    requires x < |inp.rows| && Excluded(loaded, x)
    ensures c < x && Connected(NaiveEdges(inp), x, c)
  {
    hide FullTrace, Wired, Tallied, SkipRecords, KeptPairs, IsGrouping, Faithful, NaiveEdges;
    ExcludedMeaning(r.groups, loaded, x);
    var i :| 0 <= i < |r.groups| && x in r.groups[i].members && x != r.groups[i].canonical;
    c := r.groups[i].canonical;
    GroupBasics(|inp.rows|, t, r.groups, i);
    LowestIsLeast(r.groups[i].members, x);
    SameGroupConnected(|inp.rows|, t, r.groups, i, x, c);
    MatchRefinesNaive(inp, t, chains, x, c);
  }

  /** The rows kept are exactly the lowest of each class of the simple relation. */
  lemma KeptIffLowest(
      inp: Input, r: MatchResult, t: seq<Decision>, chains: nat, keys: seq<string>, loaded: seq<GroupInput>, x: nat)
    requires ValidInput(inp) && Correct(inp, r, t, chains, keys) && Faithful(r.groups, loaded)
    requires x < |inp.rows|
    ensures !Excluded(loaded, x) <==> LowestOfClass(inp, x)
  {
    hide Correct, Faithful, Excluded;
    if Excluded(loaded, x) {
      var c := ExcludedHasLowerMate(inp, r, t, chains, keys, loaded, x);
    }
    if !LowestOfClass(inp, x) {
      var y: nat :| y < x && Connected(NaiveEdges(inp), x, y);
      LowerMateExcludes(inp, r, t, chains, keys, loaded, x, y);
    }
  }

  /** The rows kept, as a list: ascending, and exactly the lowest of each class. */
  lemma KeptAreLowest(
      inp: Input, r: MatchResult, t: seq<Decision>, chains: nat, keys: seq<string>,
      loaded: seq<GroupInput>, kept: seq<nat>)
    requires ValidInput(inp) && Correct(inp, r, t, chains, keys) && Faithful(r.groups, loaded)
    requires ListsKept(loaded, |inp.rows|, kept)
    ensures Ascending(kept) && forall x: nat :: x in kept <==> LowestOfClass(inp, x)
  {
    forall x: nat
      ensures x in kept <==> LowestOfClass(inp, x)
    {
      if x < |inp.rows| {
        KeptIffLowest(inp, r, t, chains, keys, loaded, x);
      }
    }
  }

  lemma {:induction false} ClassHasLowest(inp: Input, x: nat) returns (m: nat)
    requires ValidInput(inp) && x < |inp.rows|
    ensures m <= x && LowestOfClass(inp, m) && Connected(NaiveEdges(inp), x, m)
  {
    if LowestOfClass(inp, x) {
      m := x;
      ConnectedRefl(NaiveEdges(inp), x);
    } else {
      var y: nat :| y < x && Connected(NaiveEdges(inp), x, y);
      m := ClassHasLowest(inp, y);
      ConnectedTrans(NaiveEdges(inp), x, y, m);
    }
  }

  /** `m` is the one kept row of the class of `x`. */
  ghost predicate OnlySurvivor(inp: Input, kept: seq<nat>, x: nat, m: nat)
    requires ValidInput(inp)
  {
    && m in kept && Connected(NaiveEdges(inp), x, m)
    && forall k: nat :: k in kept && Connected(NaiveEdges(inp), x, k) ==> k == m
  }

  /** Every class survives in exactly one row. */
  lemma OneRowPerClass(
      inp: Input, r: MatchResult, t: seq<Decision>, chains: nat, keys: seq<string>,
      loaded: seq<GroupInput>, kept: seq<nat>, x: nat)
    requires ValidInput(inp) && Correct(inp, r, t, chains, keys) && Faithful(r.groups, loaded)
    requires ListsKept(loaded, |inp.rows|, kept) && x < |inp.rows|
    ensures exists m: nat :: OnlySurvivor(inp, kept, x, m)
  {
    var es := NaiveEdges(inp);
    KeptAreLowest(inp, r, t, chains, keys, loaded, kept);
    var m := ClassHasLowest(inp, x);
    forall k: nat | k in kept && Connected(es, x, k)
      ensures k == m
    {
      ConnectedSym(es, x, k);
      ConnectedTrans(es, k, x, m);
      ConnectedSym(es, k, m);
    }
    assert OnlySurvivor(inp, kept, x, m);
  }

  /** No two exported rows agree on all the original columns. */
  lemma NoDuplicateSurvives(
      inp: Input, r: MatchResult, t: seq<Decision>, chains: nat, keys: seq<string>,
      loaded: seq<GroupInput>, kept: seq<nat>, i: nat, j: nat)
    requires ValidInput(inp) && Correct(inp, r, t, chains, keys) && Faithful(r.groups, loaded)
    requires ListsKept(loaded, |inp.rows|, kept) && i < j < |kept|
    ensures kept[i] < |inp.rows| && kept[j] < |inp.rows| && inp.rows[kept[i]] != inp.rows[kept[j]]
  {
    KeptAreLowest(inp, r, t, chains, keys, loaded, kept);
    var x, y := kept[i], kept[j];
    assert x in kept && y in kept;
    if inp.rows[x] == inp.rows[y] {
      assert NaivelyLinked(inp, y, x) && (y, x) in NaiveEdges(inp);
      ConnectedEdge(NaiveEdges(inp), y, x);
    }
  }

  // ----- nothing lost

  ghost function Surplus(groups: seq<Group>): int {
    if groups == [] then 0 else Surplus(groups[..|groups| - 1]) + |groups[|groups| - 1].members| - 1
  }

  ghost function Others(g: Group): set<nat> {
    set x | x in g.members && x != g.canonical
  }

  ghost function AllOthers(groups: seq<Group>): set<nat> {
    if groups == [] then {} else AllOthers(groups[..|groups| - 1]) + Others(groups[|groups| - 1])
  }

  lemma {:induction false} AllOthersMeaning(groups: seq<Group>, x: nat)
    ensures x in AllOthers(groups) <==> exists i :: 0 <= i < |groups| && x in Others(groups[i])
  {
    if groups != [] {
      var front := groups[..|groups| - 1];
      AllOthersMeaning(front, x);
      if i :| 0 <= i < |groups| && x in Others(groups[i]) {
        assert i < |front| ==> front[i] == groups[i];
      }
      if i :| 0 <= i < |front| && x in Others(front[i]) {
        assert groups[i] == front[i];
      }
    }
  }

  lemma OthersSize(g: Group)
    requires Ascending(g.members) && |g.members| > 0 && g.canonical == g.members[0]
    ensures |Others(g)| == |g.members| - 1
  {
    AscendingSize(g.members);
    assert Elements(g.members) == Others(g) + {g.canonical};
  }

  lemma GroupBasics(n: nat, t: seq<Decision>, groups: seq<Group>, i: nat)
    requires IsGrouping(n, t, groups) && i < |groups|
    ensures Ascending(groups[i].members) && |groups[i].members| >= 2 && groups[i].canonical == groups[i].members[0]
  {
    assert IsGroup(n, t, groups[i]);
  }

  lemma {:induction false} SurplusIsSize(n: nat, t: seq<Decision>, groups: seq<Group>, k: nat)
    requires IsGrouping(n, t, groups) && k <= |groups|
    ensures |AllOthers(groups[..k])| == Surplus(groups[..k])
  {
    hide IsGrouping, IsGroup;
    if k > 0 {
      var front, g := groups[..k - 1], groups[k - 1];
      SurplusIsSize(n, t, groups, k - 1);
      assert groups[..k][..k - 1] == front;
      GroupBasics(n, t, groups, k - 1);
      OthersSize(g);
      forall x | x in AllOthers(front) && x in Others(g)
        ensures false
      {
        AllOthersMeaning(front, x);
        var i :| 0 <= i < |front| && x in Others(front[i]);
        GroupsDisjoint(n, t, groups, i, k - 1, x);
      }
      assert AllOthers(front) !! Others(g);
    }
  }

  ghost function Below(n: nat): (s: set<nat>)
    ensures |s| == n && forall x: nat :: x in s <==> x < n
  {
    if n == 0 then {} else Below(n - 1) + {n - 1}
  }

  lemma GoneIffExcluded(groups: seq<Group>, loaded: seq<GroupInput>, x: nat)
    requires Faithful(groups, loaded)
    ensures x in AllOthers(groups) <==> Excluded(loaded, x)
  {
    AllOthersMeaning(groups, x);
    ExcludedMeaning(groups, loaded, x);
    if i :| 0 <= i < |groups| && x in groups[i].members && x != groups[i].canonical {
      assert x in Others(groups[i]);
    }
  }

  lemma GoneInTable(n: nat, t: seq<Decision>, groups: seq<Group>, x: nat)
    requires IsGrouping(n, t, groups) && x in AllOthers(groups)
    ensures x < n
  {
    AllOthersMeaning(groups, x);
    var i :| 0 <= i < |groups| && x in Others(groups[i]);
    assert IsGroup(n, t, groups[i]);
  }

  /** Rows out, plus what each group gave up, is rows in. */
  lemma RowsConserved(
      inp: Input, r: MatchResult, t: seq<Decision>, chains: nat, keys: seq<string>,
      loaded: seq<GroupInput>, kept: seq<nat>)
    requires ValidInput(inp) && Correct(inp, r, t, chains, keys) && Faithful(r.groups, loaded)
    requires ListsKept(loaded, |inp.rows|, kept)
    ensures |kept| + Surplus(r.groups) == |inp.rows|
  {
    hide FullTrace, IsGrouping, Wired, Tallied, SkipRecords, KeptPairs, Faithful, AllOthers, Surplus;
    var n, stay, gone := |inp.rows|, Elements(kept), AllOthers(r.groups);
    assert r.groups[..|r.groups|] == r.groups;
    SurplusIsSize(n, t, r.groups, |r.groups|);
    AscendingSize(kept);
    forall x: nat
      ensures x in stay + gone <==> x in Below(n)
      ensures !(x in stay && x in gone)
    {
      GoneIffExcluded(r.groups, loaded, x);
      if x in gone {
        GoneInTable(n, t, r.groups, x);
      }
    }
    assert stay + gone == Below(n);
    assert stay !! gone;
  }

  /** `m` holds the rows `kept`, the lowest of every class, in order, each with its
      original cells and its source index. */
  ghost predicate Survivors(inp: Input, m: MaterializeResult, kept: seq<nat>)
    requires ValidInput(inp)
  {
    && Ascending(kept) && (forall x: nat :: x in kept <==> LowestOfClass(inp, x))
    && |m.rows| == |kept| == m.rowCount
    && forall k :: 0 <= k < |kept| ==>
         && kept[k] < |inp.rows| && m.rows[k] == OutputRow(inp.rows[kept[k]], kept[k])
         && Provenance(m.rows[k], inp.rows[kept[k]], kept[k])
  }

  ghost predicate Deduplicated(inp: Input, m: MaterializeResult)
    requires ValidInput(inp)
  {
    && (exists kept :: Survivors(inp, m, kept))
    && m.headers == inp.headers + ["__aiops_canonical_record", "__aiops_source_row_index"]
  }

  /** No two of the rows agree on their first `width` cells. */
  ghost predicate DistinctOriginals(width: nat, rows: seq<Row>) {
    && (forall i :: 0 <= i < |rows| ==> |rows[i]| == width + 2)
    && forall i, j :: 0 <= i < j < |rows| ==> rows[i][..width] != rows[j][..width]
  }

  /** The survivors are determined, so the output is. */
  lemma DeduplicatedUnique(inp: Input, m: MaterializeResult, m': MaterializeResult)
    requires ValidInput(inp) && Deduplicated(inp, m) && Deduplicated(inp, m')
    ensures m.rows == m'.rows
  {
    hide LowestOfClass, OutputRow;
    var kept :| Survivors(inp, m, kept);
    var kept' :| Survivors(inp, m', kept');
    forall x: nat
      ensures x in Elements(kept) <==> x in Elements(kept')
    {
    }
    AscendingUnique(kept, kept');
  }

  /** From table to deduplicated table: either the groups could not be recovered from the
      kept decisions, or the output is the lowest row of every class.  The ghost results
      are those of the match. */
  method Deduplicate(inp: Input, maxExclusions: nat)
    returns (out: Result<MaterializeResult, LoadError>,
             ghost r: MatchResult, ghost t: seq<Decision>, ghost chains: nat, ghost keys: seq<string>)
    requires ValidInput(inp)
    ensures Correct(inp, r, t, chains, keys)
    ensures out.Ok? ==> Deduplicated(inp, out.value)
    ensures out.Ok? ==> DistinctOriginals(|inp.headers|, out.value.rows)
    ensures out.Ok? ==> out.value.rowCount + Surplus(r.groups) == |inp.rows|
    ensures out.Ok? <==> forall i :: 0 <= i < |r.groups| ==> FullyNamed(r, i)
    ensures |t| <= inp.limits.maxPersistedDecisions ==> out.Ok?
  {
    hide Correct, Faithful, LowestOfClass, ListsKept, RecordsExclusions, OutputRow, Surplus, FullyNamed, Numeral;
    var loaded;
    r, loaded, t, chains, keys := MatchAndLoad(inp);
    if loaded.Err? {
      out := Err(loaded.error);
    } else {
      var m, kept := Materialize(inp.rows, inp.headers, loaded.value, maxExclusions);
      out := Ok(m);
      KeptAreLowest(inp, r, t, chains, keys, loaded.value, kept);
      assert Survivors(inp, m, kept);
      RowsConserved(inp, r, t, chains, keys, loaded.value, kept);
      forall i | 0 <= i < |m.rows|
        ensures |m.rows[i]| == |inp.headers| + 2 && m.rows[i][..|inp.headers|] == inp.rows[kept[i]]
      {
        OriginalColumns(inp, kept[i]);
      }
      forall i, j | 0 <= i < j < |m.rows|
        ensures m.rows[i][..|inp.headers|] != m.rows[j][..|inp.headers|]
      {
        NoDuplicateSurvives(inp, r, t, chains, keys, loaded.value, kept, i, j);
      }
    }
  }

  lemma OriginalColumns(inp: Input, x: nat)
    requires ValidInput(inp) && x < |inp.rows|
    ensures |OutputRow(inp.rows[x], x)| == |inp.headers| + 2
    ensures OutputRow(inp.rows[x], x)[..|inp.headers|] == inp.rows[x]
  {
  }
}

/** Export: groups are reconstructed from the kept decisions, and the table is
    materialised with one row per group. */
module Export {
  import opened Wrappers
  import opened Tables
  import opened Sequences
  import opened MatchSpec
  import opened MatchAudit

  /** `id` stands for the identifier of the stored group. */
  datatype GroupInput = GroupInput(id: nat, canonical: nat, recordCount: nat, members: seq<nat>)

  datatype RowExclusion = RowExclusion(row: nat, groupId: nat, canonical: nat)

  datatype MaterializeResult = MaterializeResult(
    headers: seq<string>, rows: seq<Row>, rowCount: nat, excludedCount: nat,
    groupsMaterialized: nat, exclusions: seq<RowExclusion>, columnCount: nat)

  datatype LoadError = IncompleteGroup(id: nat)

  // ----- loading the groups

  ghost function NamedRows(decisions: seq<Decision>, id: nat, canonical: nat): set<nat> {
    {canonical}
    + (set k | 0 <= k < |decisions| && decisions[k].groupIndex == Some(id) :: decisions[k].a)
    + (set k | 0 <= k < |decisions| && decisions[k].groupIndex == Some(id) :: decisions[k].b)
  }

  lemma NamedRowsMeaning(decisions: seq<Decision>, id: nat, canonical: nat, x: nat)
    ensures x in NamedRows(decisions, id, canonical) <==> x == canonical || Named(decisions, id, x)
  {
  }

  method CollectMembers(decisions: seq<Decision>, id: nat, canonical: nat) returns (members: set<nat>)
    ensures members == NamedRows(decisions, id, canonical)
  {
    members := {canonical};
    for k := 0 to |decisions|
      invariant members == NamedRows(decisions[..k], id, canonical)
    {
      var d := decisions[k];
      NamedRowsNext(decisions, k, id, canonical);
      if d.groupIndex == Some(id) {
        members := members + {d.a} + {d.b};
      }
    }
    assert decisions[..|decisions|] == decisions;
  }

  lemma NamedRowsNext(decisions: seq<Decision>, k: nat, id: nat, canonical: nat)
    requires k < |decisions|
    ensures NamedRows(decisions[..k + 1], id, canonical)
         == NamedRows(decisions[..k], id, canonical)
            + if decisions[k].groupIndex == Some(id) then {decisions[k].a} + {decisions[k].b} else {}
  {
    var s, t := decisions[..k], decisions[..k + 1];
    assert t[k] == decisions[k];
    assert forall i :: 0 <= i < k ==> t[i] == s[i];
    forall x
      ensures x in NamedRows(t, id, canonical) <==>
              x in NamedRows(s, id, canonical)
                   + if decisions[k].groupIndex == Some(id) then {decisions[k].a} + {decisions[k].b} else {}
    {
      if x in NamedRows(s, id, canonical) && x != canonical {
        var i :| 0 <= i < k && s[i].groupIndex == Some(id) && (s[i].a == x || s[i].b == x);
        assert t[i].groupIndex == Some(id) && (t[i].a == x || t[i].b == x);
      }
    }
  }

  method LowestRow(s: set<nat>) returns (m: nat)
    requires s != {}
    ensures m in s && forall x <- s :: m <= x
  {
    m :| m in s;
    var rest := s - {m};
    while rest != {}
      invariant m in s && rest <= s
      invariant forall x :: x in s && x !in rest ==> m <= x
    {
      var x :| x in rest;
      rest := rest - {x};
      if x < m {
        m := x;
      }
    }
  }

  /** `sorted(members)`. */
  method SortRows(s: set<nat>) returns (r: seq<nat>)
    ensures Ascending(r) && forall x :: x in r <==> x in s
  {
    r := [];
    var rest := s;
    while rest != {}
      invariant Ascending(r) && rest <= s
      invariant forall x :: x in s <==> x in r || x in rest
      invariant forall i, x | 0 <= i < |r| && x in rest :: r[i] < x
    {
      var m := LowestRow(rest);
      r := r + [m];
      rest := rest - {m};
    }
  }

  /** Loading succeeds exactly when every group's rows can be told from its decisions
      by their number; what it then yields are the rows named. */
  method LoadGroups(groups: seq<Group>, decisions: seq<Decision>)
    returns (r: Result<seq<GroupInput>, LoadError>)
    ensures r.Ok? <==> forall i :: 0 <= i < |groups| ==>
              |NamedRows(decisions, i, groups[i].canonical)| == |groups[i].members|
    ensures r.Ok? ==> |r.value| == |groups| && forall i :: 0 <= i < |groups| ==>
              && r.value[i].id == i && r.value[i].canonical == groups[i].canonical
              && r.value[i].recordCount == |groups[i].members|
              && Ascending(r.value[i].members)
              && forall x :: x in r.value[i].members <==> x in NamedRows(decisions, i, groups[i].canonical)
  {
    hide NamedRows;
    var loaded: seq<GroupInput> := [];
    for i := 0 to |groups|
      invariant |loaded| == i
      invariant forall j :: 0 <= j < i ==>
        |NamedRows(decisions, j, groups[j].canonical)| == |groups[j].members|
      invariant forall j :: 0 <= j < i ==>
        && loaded[j].id == j && loaded[j].canonical == groups[j].canonical
        && loaded[j].recordCount == |groups[j].members|
        && Ascending(loaded[j].members)
        && forall x :: x in loaded[j].members <==> x in NamedRows(decisions, j, groups[j].canonical)
    {
      var members := CollectMembers(decisions, i, groups[i].canonical);
      if |members| != |groups[i].members| {
        return Err(IncompleteGroup(i));
      }
      var sorted := SortRows(members);
      loaded := loaded + [GroupInput(i, groups[i].canonical, |groups[i].members|, sorted)];
    }
    r := Ok(loaded);
  }

  // ----- materialising

  const RESERVED_CANONICAL_RECORD := "__aiops_canonical_record"
  const RESERVED_SOURCE_ROW_INDEX := "__aiops_source_row_index"

  function Digit(d: nat): char
    requires d < 10
  {
    '0' + d as char
  }

  /** `str(n)`. */
  function Decimal(n: nat): string {
    if n < 10 then [Digit(n)] else Decimal(n / 10) + [Digit(n % 10)]
  }

  function ParseDecimal(s: string): nat
    requires forall i :: 0 <= i < |s| ==> '0' <= s[i] <= '9'
  {
    if s == "" then 0 else 10 * ParseDecimal(s[..|s| - 1]) + (s[|s| - 1] - '0') as nat
  }

  /** The provenance column can be read back. */
  lemma {:induction false} DecimalRoundTrip(n: nat)
    ensures forall i :: 0 <= i < |Decimal(n)| ==> '0' <= Decimal(n)[i] <= '9'
    ensures ParseDecimal(Decimal(n)) == n
  {
    if n >= 10 {
      DecimalRoundTrip(n / 10);
      assert Decimal(n)[..|Decimal(n)| - 1] == Decimal(n / 10);
    } else {
      assert Decimal(n)[..0] == "";
    }
  }

  ghost predicate ExcludedBy(g: GroupInput, x: nat) {
    x in g.members && x != g.canonical
  }

  /** The last group that excludes `x` is the one on record. */
  ghost predicate LastExcluder(groups: seq<GroupInput>, j: nat, x: nat) {
    && j < |groups| && ExcludedBy(groups[j], x)
    && forall i :: j < i < |groups| ==> !ExcludedBy(groups[i], x)
  }

  ghost predicate Excluded(groups: seq<GroupInput>, x: nat) {
    exists j :: 0 <= j < |groups| && ExcludedBy(groups[j], x)
  }

  ghost predicate ExclusionTable(groups: seq<GroupInput>, table: map<nat, GroupInput>) {
    && (forall x <- table :: exists j: nat :: LastExcluder(groups, j, x) && table[x] == groups[j])
    && (forall x: nat :: Excluded(groups, x) ==> x in table)
  }

  method ExcludeMembers(g: GroupInput, before: map<nat, GroupInput>) returns (table: map<nat, GroupInput>)
    ensures forall x :: x in table <==> x in before || ExcludedBy(g, x)
    ensures forall x <- table :: table[x] == if ExcludedBy(g, x) then g else before[x]
  {
    table := before;
    for m := 0 to |g.members|
      invariant forall x :: x in table <==> x in before || (x in g.members[..m] && x != g.canonical)
      invariant forall x <- table :: table[x] == if x in g.members[..m] && x != g.canonical then g else before[x]
    {
      if g.members[m] != g.canonical {
        table := table[g.members[m] := g];
      }
    }
    assert g.members[..|g.members|] == g.members;
  }

  method BuildExclusions(groups: seq<GroupInput>) returns (table: map<nat, GroupInput>)
    ensures ExclusionTable(groups, table)
  {
    table := map[];
    for k := 0 to |groups|
      invariant ExclusionTable(groups[..k], table)
    {
      hide ExclusionTable;
      ghost var before := table;
      table := ExcludeMembers(groups[k], table);
      ExclusionsNext(groups, k, before, table);
    }
    assert groups[..|groups|] == groups;
  }

  lemma ExclusionsNext(groups: seq<GroupInput>, k: nat, before: map<nat, GroupInput>, table: map<nat, GroupInput>)
    requires k < |groups| && ExclusionTable(groups[..k], before)
    requires forall x :: x in table <==> x in before || ExcludedBy(groups[k], x)
    requires forall x <- table :: table[x] == if ExcludedBy(groups[k], x) then groups[k] else before[x]
    ensures ExclusionTable(groups[..k + 1], table)
  {
    var s, t := groups[..k], groups[..k + 1];
    assert t == s + [groups[k]];
    forall x <- table
      ensures exists j: nat :: LastExcluder(t, j, x) && table[x] == t[j]
    {
      if ExcludedBy(groups[k], x) {
        assert LastExcluder(t, k, x);
      } else {
        var j: nat :| LastExcluder(s, j, x) && before[x] == s[j];
        assert LastExcluder(t, j, x);
      }
    }
    forall x: nat | Excluded(t, x)
      ensures x in table
    {
      var j :| 0 <= j < |t| && ExcludedBy(t[j], x);
      if j < k {
        assert ExcludedBy(s[j], x);
      }
    }
  }

  /** `kept` lists the rows below `n` that no group excludes. */
  ghost predicate ListsKept(groups: seq<GroupInput>, n: nat, kept: seq<nat>) {
    Ascending(kept) && forall x: nat :: x in kept <==> x < n && !Excluded(groups, x)
  }

  function OutputRow(row: Row, index: nat): Row {
    row + ["True", Decimal(index)]
  }

  /** A decimal numeral as `str` prints it: digits, with no zero in front. */
  ghost predicate Numeral(s: string) {
    && s != "" && (forall i :: 0 <= i < |s| ==> '0' <= s[i] <= '9') && (|s| > 1 ==> s[0] != '0')
  }

  /** `out` is `row` with its provenance behind it: the flag of a canonical record first,
      then a numeral that reads as the source index. */
  ghost predicate Provenance(out: Row, row: Row, index: nat) {
    && |out| == |row| + 2 && out[..|row|] == row
    && out[|row|] == "True"
    && Numeral(out[|row| + 1]) && ParseDecimal(out[|row| + 1]) == index
  }

  lemma OutputRowProvenance(row: Row, index: nat)
    ensures Provenance(OutputRow(row, index), row, index)
  {
    DecimalRoundTrip(index);
    DecimalNumeral(index);
  }

  lemma {:induction false} DecimalNumeral(n: nat)
    ensures Numeral(Decimal(n)) && (n > 0 ==> Decimal(n)[0] != '0')
  {
    DecimalRoundTrip(n);
    if n >= 10 {
      DecimalNumeral(n / 10);
    }
  }

  /** The exclusion names the last group that excludes its row. */
  ghost predicate Justified(groups: seq<GroupInput>, e: RowExclusion) {
    exists j: nat :: LastExcluder(groups, j, e.row) && e.groupId == groups[j].id && e.canonical == groups[j].canonical
  }

  ghost predicate RecordedIn(exclusions: seq<RowExclusion>, x: nat) {
    exists i :: 0 <= i < |exclusions| && exclusions[i].row == x
  }

  ghost predicate PastAll(exclusions: seq<RowExclusion>, x: nat) {
    forall i :: 0 <= i < |exclusions| ==> exclusions[i].row < x
  }

  /** `exclusions` records the first excluded rows, at most `cap`, each with the group
      responsible; `total` of the `n` rows are excluded in all. */
  ghost predicate RecordsExclusions(
    groups: seq<GroupInput>, n: nat, cap: nat, total: nat, exclusions: seq<RowExclusion>)
  {
    && |exclusions| == Min(cap, total)
    && (forall i, j :: 0 <= i < j < |exclusions| ==> exclusions[i].row < exclusions[j].row)
    && (forall i :: 0 <= i < |exclusions| ==>
          exclusions[i].row < n && Justified(groups, exclusions[i]))
    && (forall x: nat :: x < n && Excluded(groups, x) ==>
          RecordedIn(exclusions, x) || (|exclusions| == cap && PastAll(exclusions, x)))
  }

  method Materialize(rows: seq<Row>, headers: seq<string>, groups: seq<GroupInput>, maxExclusions: nat)
    returns (r: MaterializeResult, ghost kept: seq<nat>)
    ensures ListsKept(groups, |rows|, kept)
    ensures |r.rows| == |kept| == r.rowCount
    ensures forall k :: 0 <= k < |kept| ==> kept[k] < |rows| && r.rows[k] == OutputRow(rows[kept[k]], kept[k])
    ensures forall k :: 0 <= k < |kept| ==> kept[k] < |rows| && Provenance(r.rows[k], rows[kept[k]], kept[k])
    ensures r.excludedCount == |rows| - |kept|
    ensures RecordsExclusions(groups, |rows|, maxExclusions, r.excludedCount, r.exclusions)
    ensures r.headers == headers + [RESERVED_CANONICAL_RECORD, RESERVED_SOURCE_ROW_INDEX]
    ensures |r.headers| == |headers| + 2 && r.headers[..|headers|] == headers
    ensures r.headers[|headers|] == "__aiops_canonical_record" && r.headers[|headers| + 1] == "__aiops_source_row_index"
    ensures r.columnCount == |r.headers| && r.groupsMaterialized == |groups|
  {
    hide ListsKept, RecordsExclusions, ExclusionTable, Decimal, Provenance, OutputRow;
    var table := BuildExclusions(groups);
    var outHeaders := headers + [RESERVED_CANONICAL_RECORD, RESERVED_SOURCE_ROW_INDEX];
    var out: seq<Row> := [];
    var exclusions: seq<RowExclusion> := [];
    kept := [];
    NothingYet(groups, maxExclusions);
    for n := 0 to |rows|
      invariant ListsKept(groups, n, kept)
      invariant |out| == |kept| <= n
      invariant forall k :: 0 <= k < |kept| ==> kept[k] < n && out[k] == OutputRow(rows[kept[k]], kept[k])
      invariant forall k :: 0 <= k < |kept| ==> Provenance(out[k], rows[kept[k]], kept[k])
      invariant RecordsExclusions(groups, n, maxExclusions, n - |kept|, exclusions)
    {
      if n in table {
        ExclusionRecorded(groups, table, n, maxExclusions, n - |kept|, exclusions);
        if |exclusions| < maxExclusions {
          exclusions := exclusions + [RowExclusion(n, table[n].id, table[n].canonical)];
        }
        KeptSkips(groups, table, n, kept);
        continue;
      }
      KeptGrows(groups, table, n, kept);
      NotExcluded(groups, table, n, maxExclusions, n - |kept|, exclusions);
      OutputRowProvenance(rows[n], n);
      out := out + [OutputRow(rows[n], n)];
      kept := kept + [n];
    }
    r := MaterializeResult(outHeaders, out, |out|, |rows| - |out|, |groups|, exclusions, |outHeaders|);
  }

  lemma NothingYet(groups: seq<GroupInput>, cap: nat)
    ensures ListsKept(groups, 0, []) && RecordsExclusions(groups, 0, cap, 0, [])
  {
  }

  lemma KeptSkips(groups: seq<GroupInput>, table: map<nat, GroupInput>, n: nat, kept: seq<nat>)
    requires ExclusionTable(groups, table) && n in table && ListsKept(groups, n, kept)
    ensures ListsKept(groups, n + 1, kept)
  {
    var j: nat :| LastExcluder(groups, j, n) && table[n] == groups[j];
    assert ExcludedBy(groups[j], n);
  }

  lemma KeptGrows(groups: seq<GroupInput>, table: map<nat, GroupInput>, n: nat, kept: seq<nat>)
    requires ExclusionTable(groups, table) && n !in table && ListsKept(groups, n, kept)
    ensures ListsKept(groups, n + 1, kept + [n])
  {
    assert forall i :: 0 <= i < |kept| ==> kept[i] in kept;
    assert !Excluded(groups, n);
  }

  lemma NotExcluded(
      groups: seq<GroupInput>, table: map<nat, GroupInput>, n: nat, cap: nat, total: nat, exclusions: seq<RowExclusion>)
    requires ExclusionTable(groups, table) && n !in table
    requires RecordsExclusions(groups, n, cap, total, exclusions)
    ensures RecordsExclusions(groups, n + 1, cap, total, exclusions)
  {
    assert !Excluded(groups, n);
  }

  lemma ExclusionRecorded(
      groups: seq<GroupInput>, table: map<nat, GroupInput>, n: nat, cap: nat, total: nat, exclusions: seq<RowExclusion>)
    requires ExclusionTable(groups, table) && n in table
    requires RecordsExclusions(groups, n, cap, total, exclusions)
    ensures RecordsExclusions(groups, n + 1, cap, total + 1,
              if |exclusions| < cap then exclusions + [RowExclusion(n, table[n].id, table[n].canonical)]
              else exclusions)
  {
    var e := RowExclusion(n, table[n].id, table[n].canonical);
    var j: nat :| LastExcluder(groups, j, n) && table[n] == groups[j];
    if |exclusions| < cap {
      var more := exclusions + [e];
      assert more[|exclusions|] == e;
      forall x: nat | x < n + 1 && Excluded(groups, x)
        ensures RecordedIn(more, x)
      {
        if x < n {
          var i :| 0 <= i < |exclusions| && exclusions[i].row == x;
          assert more[i].row == x;
        }
      }
    }
  }
}

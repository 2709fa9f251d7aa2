/** What the counters of a purge pass count, told from the store and the faults alone. */
module RetentionCounts {
  import opened Wrappers
  import opened Sequences
  import opened Retention
  import opened RetentionPass

  /** How an attempt ends. */
  datatype Fate = Purged | Missing | Failed | WouldPurge | Lost

  /** The attempt takes the file away, whether or not that is recorded. */
  ghost predicate Removes(faults: Faults, kind: nat, id: RunId, dryRun: bool) {
    !dryRun && (FaultOf(faults, kind, id).None? || FaultOf(faults, kind, id) == Some(Raises(true)))
  }

  /** The file of the i-th run attempted was there at the start and no earlier attempt took
      it away. */
  ghost predicate FileThere(st: Store, kind: nat, ids: seq<RunId>, dryRun: bool, faults: Faults, i: nat)
    requires InTable(st, kind, ids) && i < |ids|
  {
    var path := st.tables[kind][ids[i]].path;
    && path in st.files
    && forall j :: 0 <= j < i && Removes(faults, kind, ids[j], dryRun) ==> st.tables[kind][ids[j]].path != path
  }

  ghost function FateOf(st: Store, kind: nat, ids: seq<RunId>, dryRun: bool, faults: Faults, i: nat): Fate
    requires InTable(st, kind, ids) && i < |ids|
  {
    match FaultOf(faults, kind, ids[i])
    case Some(Raises(_)) => Lost
    case Some(_) => Failed
    case None =>
      if !FileThere(st, kind, ids, dryRun, faults, i) then Missing else if dryRun then WouldPurge else Purged
  }

  /** The attempts on one table that end in `fate`. */
  ghost function Fated(st: Store, kind: nat, ids: seq<RunId>, dryRun: bool, faults: Faults, fate: Fate): set<nat>
    requires InTable(st, kind, ids)
  {
    set i: nat | i < |ids| && FateOf(st, kind, ids, dryRun, faults, i) == fate
  }

  /** Each counter is the number of attempts that ended its way. */
  ghost predicate CountsOf(t: Tally, st: Store, kind: nat, ids: seq<RunId>, dryRun: bool, faults: Faults)
    requires InTable(st, kind, ids)
  {
    && t.purged == |Fated(st, kind, ids, dryRun, faults, Purged)|
    && t.alreadyMissing == |Fated(st, kind, ids, dryRun, faults, Missing)|
    && t.failed == |Fated(st, kind, ids, dryRun, faults, Failed)|
    && t.wouldPurge == |Fated(st, kind, ids, dryRun, faults, WouldPurge)|
  }

  lemma FateOfFront(
      st: Store, kind: nat, ids: seq<RunId>, id: RunId, dryRun: bool, faults: Faults, i: nat)
    requires InTable(st, kind, ids) && id in st.tables[kind] && i < |ids|
    ensures InTable(st, kind, ids + [id])
    ensures FateOf(st, kind, ids + [id], dryRun, faults, i) == FateOf(st, kind, ids, dryRun, faults, i)
  {
    var more := ids + [id];
    assert forall j :: 0 <= j <= i ==> more[j] == ids[j];
  }

  lemma FatedMore(
      st: Store, kind: nat, ids: seq<RunId>, id: RunId, dryRun: bool, faults: Faults, fate: Fate)
    requires InTable(st, kind, ids) && id in st.tables[kind]
    ensures InTable(st, kind, ids + [id])
    ensures |Fated(st, kind, ids + [id], dryRun, faults, fate)|
         == |Fated(st, kind, ids, dryRun, faults, fate)|
            + if FateOf(st, kind, ids + [id], dryRun, faults, |ids|) == fate then 1 else 0
  {
    var more := ids + [id];
    assert InTable(st, kind, more);
    hide FateOf, InTable;
    var before := Fated(st, kind, ids, dryRun, faults, fate);
    var last := FateOf(st, kind, more, dryRun, faults, |ids|) == fate;
    forall i: nat
      ensures i in Fated(st, kind, more, dryRun, faults, fate) <==> i in before || (i == |ids| && last)
    {
      if i < |ids| {
        FateOfFront(st, kind, ids, id, dryRun, faults, i);
      }
    }
    assert Fated(st, kind, more, dryRun, faults, fate) == before + if last then {|ids|} else {};
  }

  /** What is left on disk after some attempts, and that rows keep their paths. */
  lemma {:induction false} FilesLeft(
      st: Store, kind: nat, ids: seq<RunId>, dryRun: bool, now: Time, faults: Faults, path: Path)
    requires InTable(st, kind, ids)
    ensures path in ProcessAll(st, kind, ids, dryRun, now, faults).files <==>
      && path in st.files
      && forall j :: 0 <= j < |ids| && Removes(faults, kind, ids[j], dryRun) ==> st.tables[kind][ids[j]].path != path
  {
    if ids != [] {
      var n, front, id := |ids| - 1, ids[..|ids| - 1], ids[|ids| - 1];
      FilesLeft(st, kind, front, dryRun, now, faults, path);
      ProcessAllRows(st, kind, front, dryRun, now, faults, kind, id);
      var mid := ProcessAll(st, kind, front, dryRun, now, faults);
      hide ProcessAll;
      assert mid.tables[kind][id].path == st.tables[kind][id].path;
      OneFileLess(mid, kind, id, dryRun, now, faults, path);
      assert forall j :: 0 <= j < n ==> front[j] == ids[j];
    }
  }

  lemma OneFileLess(st: Store, kind: nat, id: RunId, dryRun: bool, now: Time, faults: Faults, path: Path)
    requires kind < |st.tables| && id in st.tables[kind]
    ensures path in ProcessOne(st, kind, id, dryRun, now, FaultOf(faults, kind, id)).files <==>
      path in st.files && (Removes(faults, kind, id, dryRun) ==> st.tables[kind][id].path != path)
  {
  }

  /** The event an attempt leaves, if any, says how it ended. */
  ghost predicate Says(fate: Fate, dryRun: bool, before: seq<AuditEvent>, after: seq<AuditEvent>) {
    if fate.Lost? then after == before
    else
      && |after| == |before| + 1 && after[..|before|] == before
      && var e := after[|before|];
         && e.dryRun == dryRun
         && match fate
            case Purged => e.outcome.Completed? && !dryRun
            case WouldPurge => e.outcome.Completed? && dryRun
            case Missing => e.outcome.AlreadyMissing?
            case _ => e.outcome.DeletionFailed?
  }

  lemma LastFate(
      st: Store, kind: nat, ids: seq<RunId>, id: RunId, dryRun: bool, now: Time, faults: Faults)
    requires InTable(st, kind, ids) && id in st.tables[kind]
    ensures InTable(st, kind, ids + [id])
    ensures var mid := ProcessAll(st, kind, ids, dryRun, now, faults);
            Says(FateOf(st, kind, ids + [id], dryRun, faults, |ids|), dryRun, mid.events,
                 ProcessOne(mid, kind, id, dryRun, now, FaultOf(faults, kind, id)).events)
  {
    var mid, more := ProcessAll(st, kind, ids, dryRun, now, faults), ids + [id];
    var path := st.tables[kind][id].path;
    ProcessAllRows(st, kind, ids, dryRun, now, faults, kind, id);
    FilesLeft(st, kind, ids, dryRun, now, faults, path);
    hide ProcessAll, Removes;
    assert forall j :: 0 <= j < |ids| ==> more[j] == ids[j];
    assert InTable(st, kind, more);
    assert FileThere(st, kind, more, dryRun, faults, |ids|) <==> path in mid.files;
  }

  lemma TallySays(t: Tally, fate: Fate, dryRun: bool, before: seq<AuditEvent>, after: seq<AuditEvent>, from: nat)
    requires Says(fate, dryRun, before, after) && from <= |before| && t == TallyOf(before[from..])
    ensures from <= |after|
    ensures var u := TallyOf(after[from..]);
            && u.purged == t.purged + (if fate.Purged? then 1 else 0)
            && u.alreadyMissing == t.alreadyMissing + (if fate.Missing? then 1 else 0)
            && u.failed == t.failed + (if fate.Failed? then 1 else 0)
            && u.wouldPurge == t.wouldPurge + (if fate.WouldPurge? then 1 else 0)
  {
    if !fate.Lost? {
      assert after[from..] == before[from..] + [after[|before|]];
      TallySnoc(before[from..], after[|before|]);
    }
  }

  /** The tally of a table's transactions counts how the attempts on it ended. */
  lemma {:induction false} TableCounts(
      st: Store, kind: nat, ids: seq<RunId>, dryRun: bool, now: Time, faults: Faults)
    requires InTable(st, kind, ids)
    ensures var out := ProcessAll(st, kind, ids, dryRun, now, faults);
            st.events <= out.events && CountsOf(TallyOf(out.events[|st.events|..]), st, kind, ids, dryRun, faults)
  {
    hide Says, FateOf, ProcessOne, TallyOf;
    ProcessAllEvents(st, kind, ids, dryRun, now, faults);
    if ids == [] {
      assert st.events[|st.events|..] == [];
      NothingFated(st, kind, dryRun, faults);
    } else {
      var front, id := ids[..|ids| - 1], ids[|ids| - 1];
      assert ids == front + [id];
      TableCounts(st, kind, front, dryRun, now, faults);
      ProcessAllSnoc(st, kind, front, id, dryRun, now, faults);
      LastFate(st, kind, front, id, dryRun, now, faults);
      var mid, out := ProcessAll(st, kind, front, dryRun, now, faults), ProcessAll(st, kind, ids, dryRun, now, faults);
      hide ProcessAll, Fated;
      TallySays(TallyOf(mid.events[|st.events|..]), FateOf(st, kind, ids, dryRun, faults, |front|), dryRun,
                mid.events, out.events, |st.events|);
      FatedMore(st, kind, front, id, dryRun, faults, Purged);
      FatedMore(st, kind, front, id, dryRun, faults, Missing);
      FatedMore(st, kind, front, id, dryRun, faults, Failed);
      FatedMore(st, kind, front, id, dryRun, faults, WouldPurge);
    }
  }

  lemma NothingFated(st: Store, kind: nat, dryRun: bool, faults: Faults)
    requires kind < |st.tables|
    ensures InTable(st, kind, []) && TallyOf([]) == NOTHING
    ensures forall fate :: Fated(st, kind, [], dryRun, faults, fate) == {}
  {
  }

  /** A real pass only deletes, and a dry one only says what it would delete. */
  lemma RealOrDry(t: Tally, st: Store, kind: nat, ids: seq<RunId>, dryRun: bool, faults: Faults)
    requires InTable(st, kind, ids) && CountsOf(t, st, kind, ids, dryRun, faults)
    ensures dryRun ==> t.purged == 0
    ensures !dryRun ==> t.wouldPurge == 0
  {
    if dryRun {
      assert Fated(st, kind, ids, dryRun, faults, Purged) == {};
    } else {
      assert Fated(st, kind, ids, dryRun, faults, WouldPurge) == {};
    }
  }

  // ----- all tables

  /** `stages` are the states before, between and after the tables visited so far. */
  ghost predicate Stages(stages: seq<Store>, attempted: seq<seq<RunId>>, dryRun: bool, now: Time, faults: Faults) {
    && |stages| == |attempted| + 1
    && forall k :: 0 <= k < |attempted| ==>
         InTable(stages[k], k, attempted[k])
         && stages[k + 1] == ProcessAll(stages[k], k, attempted[k], dryRun, now, faults)
  }

  ghost predicate Visits(stages: seq<Store>, attempted: seq<seq<RunId>>) {
    |attempted| <= |stages| && forall k :: 0 <= k < |attempted| ==> InTable(stages[k], k, attempted[k])
  }

  /** The attempts that end in `fate`, table by table. */
  ghost function FatedByTable(
    stages: seq<Store>, attempted: seq<seq<RunId>>, dryRun: bool, faults: Faults, fate: Fate): seq<set<nat>>
    requires Visits(stages, attempted)
  {
    seq(|attempted|, k requires 0 <= k < |attempted| => Fated(stages[k], k, attempted[k], dryRun, faults, fate))
  }

  /** The attempts of the pass, as table and place, that end in `fate`. */
  ghost function PassFated(
    stages: seq<Store>, attempted: seq<seq<RunId>>, dryRun: bool, faults: Faults, fate: Fate): set<(nat, nat)>
    requires Visits(stages, attempted)
  {
    Numbered(FatedByTable(stages, attempted, dryRun, faults, fate))
  }

  ghost predicate PassCounts(
    t: Tally, stages: seq<Store>, attempted: seq<seq<RunId>>, dryRun: bool, faults: Faults)
    requires Visits(stages, attempted)
  {
    && t.purged == |PassFated(stages, attempted, dryRun, faults, Purged)|
    && t.alreadyMissing == |PassFated(stages, attempted, dryRun, faults, Missing)|
    && t.failed == |PassFated(stages, attempted, dryRun, faults, Failed)|
    && t.wouldPurge == |PassFated(stages, attempted, dryRun, faults, WouldPurge)|
  }

  lemma PassFatedMore(
      stages: seq<Store>, attempted: seq<seq<RunId>>, next: Store, ids: seq<RunId>, dryRun: bool, faults: Faults,
      fate: Fate)
    requires Visits(stages, attempted) && |attempted| < |stages| && InTable(stages[|attempted|], |attempted|, ids)
    ensures Visits(stages + [next], attempted + [ids])
    ensures |PassFated(stages + [next], attempted + [ids], dryRun, faults, fate)|
         == |PassFated(stages, attempted, dryRun, faults, fate)|
            + |Fated(stages[|attempted|], |attempted|, ids, dryRun, faults, fate)|
  {
    var n, after, all := |attempted|, stages + [next], attempted + [ids];
    assert forall k :: 0 <= k < n ==> after[k] == stages[k] && all[k] == attempted[k];
    assert after[n] == stages[n] && all[n] == ids;
    assert Visits(after, all);
    hide Fated, InTable;
    var before := FatedByTable(stages, attempted, dryRun, faults, fate);
    var here := Fated(stages[n], n, ids, dryRun, faults, fate);
    assert FatedByTable(after, all, dryRun, faults, fate) == before + [here];
    NumberedSnoc(before, here);
  }

  /** The sum of two tallies. */
  function Added(a: Tally, b: Tally): Tally {
    Tally(a.purged + b.purged, a.alreadyMissing + b.alreadyMissing, a.failed + b.failed,
          a.wouldPurge + b.wouldPurge, a.bytesReclaimed + b.bytesReclaimed)
  }

  lemma PassCountsMore(
      t: Tally, stages: seq<Store>, attempted: seq<seq<RunId>>, u: Tally, next: Store, ids: seq<RunId>, dryRun: bool,
      faults: Faults)
    requires Visits(stages, attempted) && |attempted| < |stages| && InTable(stages[|attempted|], |attempted|, ids)
    requires PassCounts(t, stages, attempted, dryRun, faults)
    requires CountsOf(u, stages[|attempted|], |attempted|, ids, dryRun, faults)
    ensures Visits(stages + [next], attempted + [ids])
    ensures PassCounts(Added(t, u), stages + [next], attempted + [ids], dryRun, faults)
  {
    hide PassFated, Fated, Visits, InTable;
    PassFatedMore(stages, attempted, next, ids, dryRun, faults, Purged);
    PassFatedMore(stages, attempted, next, ids, dryRun, faults, Missing);
    PassFatedMore(stages, attempted, next, ids, dryRun, faults, Failed);
    PassFatedMore(stages, attempted, next, ids, dryRun, faults, WouldPurge);
  }

  lemma NoVisits(st: Store, dryRun: bool, faults: Faults)
    ensures Visits([st], []) && PassCounts(NOTHING, [st], [], dryRun, faults)
  {
    forall fate
      ensures PassFated([st], [], dryRun, faults, fate) == {}
    {
      assert FatedByTable([st], [], dryRun, faults, fate) == [];
    }
  }
}

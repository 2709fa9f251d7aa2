/** The bounded purge pass over the three tables of output-producing runs. */
module RetentionPass {
  import opened Wrappers
  import opened Retention

  /** What can go wrong with one artifact.  A transaction that raises is rolled back; if
      it raises after the unlink, the file is gone all the same. */
  datatype Fault = UnsafePath | OsFailure(permission: bool) | Raises(afterUnlink: bool)

  datatype Reason = UnsafePathReason | PermissionDenied | FilesystemError

  datatype AuditEvent = AuditEvent(
    kind: nat, run: RunId, outcome: Outcome, reason: Option<Reason>, dryRun: bool, size: Option<nat>)

  /** The tables in the order the pass visits them, and the files with their sizes. */
  datatype Store = Store(tables: seq<map<RunId, Run>>, files: map<Path, nat>, events: seq<AuditEvent>)

  datatype Tally = Tally(purged: nat, alreadyMissing: nat, failed: nat, wouldPurge: nat, bytesReclaimed: nat)

  function ClassifyOsError(permission: bool): Reason {
    if permission then PermissionDenied else FilesystemError
  }

  /** Eligible runs of a table with the time they are ordered by. */
  ghost function EligibleRuns(table: map<RunId, Run>, cutoff: Time): map<RunId, Time> {
    map id | id in table && Eligible(table[id], cutoff) :: DecisionTimestamp(table[id]).value
  }

  type Faults = map<(nat, RunId), Fault>

  function FaultOf(faults: Faults, kind: nat, id: RunId): Option<Fault> {
    if (kind, id) in faults then Some(faults[(kind, id)]) else None
  }

  function Logged(st: Store, e: AuditEvent): Store {
    st.(events := st.events + [e])
  }

  /** One artifact's transaction. */
  function ProcessOne(st: Store, kind: nat, id: RunId, dryRun: bool, now: Time, fault: Option<Fault>): Store
    requires kind < |st.tables| && id in st.tables[kind]
  {
    var r := st.tables[kind][id];
    var size := if r.path in st.files then Some(st.files[r.path]) else None;
    match fault
    case Some(UnsafePath) =>
      Logged(st, AuditEvent(kind, id, DeletionFailed, Some(UnsafePathReason), dryRun, None))
    case Some(OsFailure(p)) =>
      Logged(st, AuditEvent(kind, id, DeletionFailed, Some(ClassifyOsError(p)), dryRun, None))
    case Some(Raises(afterUnlink)) =>
      if afterUnlink && !dryRun then st.(files := st.files - {r.path}) else st
    case None =>
      var outcome := if size.Some? then Completed else AlreadyMissing;
      if dryRun then Logged(st, AuditEvent(kind, id, outcome, None, true, size))
      else
        var table: map<RunId, Run> := st.tables[kind][id := r.(outputDeletedAt := Some(now))];
        Logged(st.(tables := st.tables[kind := table],
                   files := st.files - {r.path}),
               AuditEvent(kind, id, outcome, None, false, size))
  }

  ghost predicate InTable(st: Store, kind: nat, ids: seq<RunId>) {
    kind < |st.tables| && forall i :: 0 <= i < |ids| ==> ids[i] in st.tables[kind]
  }

  /** The artifacts of one table, one transaction after another. */
  ghost function ProcessAll(st: Store, kind: nat, ids: seq<RunId>, dryRun: bool, now: Time, faults: Faults)
    : (out: Store)
    requires InTable(st, kind, ids)
    ensures |out.tables| == |st.tables| && forall k :: 0 <= k < |st.tables| ==> out.tables[k].Keys == st.tables[k].Keys
  {
    if ids == [] then st
    else
      var id := ids[|ids| - 1];
      ProcessOne(ProcessAll(st, kind, ids[..|ids| - 1], dryRun, now, faults), kind, id, dryRun, now,
                 FaultOf(faults, kind, id))
  }

  lemma ProcessAllSnoc(
      st: Store, kind: nat, ids: seq<RunId>, id: RunId, dryRun: bool, now: Time, faults: Faults)
    requires InTable(st, kind, ids) && id in st.tables[kind]
    ensures InTable(st, kind, ids + [id])
    ensures ProcessAll(st, kind, ids + [id], dryRun, now, faults)
         == ProcessOne(ProcessAll(st, kind, ids, dryRun, now, faults), kind, id, dryRun, now, FaultOf(faults, kind, id))
  {
    assert (ids + [id])[..|ids|] == ids;
  }

  // ----- counts

  function Counted(t: Tally, e: AuditEvent): Tally {
    match e.outcome
    case Completed =>
      if e.dryRun then t.(wouldPurge := t.wouldPurge + 1)
      else t.(purged := t.purged + 1,
              bytesReclaimed := t.bytesReclaimed + if e.size.Some? then e.size.value else 0)
    case AlreadyMissing => t.(alreadyMissing := t.alreadyMissing + 1)
    case DeletionFailed => t.(failed := t.failed + 1)
  }

  const NOTHING := Tally(0, 0, 0, 0, 0)

  /** The counts a list of audit events amounts to. */
  function TallyOf(events: seq<AuditEvent>): Tally {
    if events == [] then NOTHING else Counted(TallyOf(events[..|events| - 1]), events[|events| - 1])
  }

  function Considered(t: Tally): nat {
    t.purged + t.alreadyMissing + t.failed + t.wouldPurge
  }

  lemma TallySnoc(events: seq<AuditEvent>, e: AuditEvent)
    ensures TallyOf(events + [e]) == Counted(TallyOf(events), e)
  {
    assert (events + [e])[..|events|] == events;
  }

  lemma {:induction false} ConsideredIsEvents(events: seq<AuditEvent>)
    ensures Considered(TallyOf(events)) == |events|
  {
    if events != [] {
      ConsideredIsEvents(events[..|events| - 1]);
    }
  }

  // ----- the effect of a whole list of transactions

  ghost predicate Resolved(faults: Faults, kind: nat, id: RunId, dryRun: bool) {
    !dryRun && FaultOf(faults, kind, id).None?
  }

  /** Rows change exactly where a deletion was carried through, other tables never. */
  lemma {:induction false} ProcessAllRows(
      st: Store, kind: nat, ids: seq<RunId>, dryRun: bool, now: Time, faults: Faults, k: nat, id: RunId)
    requires InTable(st, kind, ids)
    requires k < |st.tables| && id in st.tables[k]
    ensures var out := ProcessAll(st, kind, ids, dryRun, now, faults);
            out.tables[k][id] ==
              if k == kind && id in ids && Resolved(faults, kind, id, dryRun)
              then st.tables[k][id].(outputDeletedAt := Some(now)) else st.tables[k][id]
  {
    if ids != [] {
      var front, last := ids[..|ids| - 1], ids[|ids| - 1];
      assert ids == front + [last];
      ProcessAllRows(st, kind, front, dryRun, now, faults, k, id);
    }
  }

  /** A dry pass writes audit events and nothing else. */
  lemma {:induction false} DryPassIsReadOnly(
      st: Store, kind: nat, ids: seq<RunId>, now: Time, faults: Faults)
    requires InTable(st, kind, ids)
    ensures var out := ProcessAll(st, kind, ids, true, now, faults);
            out.tables == st.tables && out.files == st.files
  {
    if ids != [] {
      DryPassIsReadOnly(st, kind, ids[..|ids| - 1], now, faults);
    }
  }

  lemma {:induction false} ProcessAllEvents(
      st: Store, kind: nat, ids: seq<RunId>, dryRun: bool, now: Time, faults: Faults)
    requires InTable(st, kind, ids)
    ensures st.events <= ProcessAll(st, kind, ids, dryRun, now, faults).events
    ensures |ProcessAll(st, kind, ids, dryRun, now, faults).events| <= |st.events| + |ids|
  {
    if ids != [] {
      ProcessAllEvents(st, kind, ids[..|ids| - 1], dryRun, now, faults);
    }
  }

  // ----- bytes

  ghost function TotalSize(files: map<Path, nat>): nat {
    if files == map[] then 0
    else
      var p :| p in files;
      files[p] + TotalSize(files - {p})
  }

  lemma {:induction false} TotalSizeRemove(files: map<Path, nat>, p: Path)
    requires p in files
    ensures TotalSize(files) == files[p] + TotalSize(files - {p})
    decreases |files|
  {
    var q :| q in files && TotalSize(files) == files[q] + TotalSize(files - {q});
    if q != p {
      TotalSizeRemove(files - {q}, p);
      TotalSizeRemove(files - {p}, q);
      assert files - {q} - {p} == files - {p} - {q};
    }
  }

  /** No transaction of the list loses its file without its record. */
  ghost predicate NoneUnlinkedThenLost(faults: Faults, kind: nat, ids: seq<RunId>) {
    forall i :: 0 <= i < |ids| ==> FaultOf(faults, kind, ids[i]) != Some(Raises(true))
  }

  /** Bytes are conserved: what the disk lost is what the new events report reclaimed. */
  lemma {:induction false} BytesConserved(
      st: Store, kind: nat, ids: seq<RunId>, dryRun: bool, now: Time, faults: Faults)
    requires InTable(st, kind, ids)
    requires NoneUnlinkedThenLost(faults, kind, ids)
    ensures var out := ProcessAll(st, kind, ids, dryRun, now, faults);
            && st.events <= out.events
            && TotalSize(st.files) == TotalSize(out.files) + TallyOf(out.events[|st.events|..]).bytesReclaimed
  {
    hide TotalSize, ProcessOne, NoneUnlinkedThenLost;
    if ids == [] {
      assert st.events[|st.events|..] == [];
    } else {
      var front, id := ids[..|ids| - 1], ids[|ids| - 1];
      var mid := ProcessAll(st, kind, front, dryRun, now, faults);
      NoneLostFront(faults, kind, ids);
      BytesConserved(st, kind, front, dryRun, now, faults);
      BytesStep(mid, kind, id, dryRun, now, FaultOf(faults, kind, id), |st.events|);
    }
  }

  lemma NoneLostFront(faults: Faults, kind: nat, ids: seq<RunId>)
    requires NoneUnlinkedThenLost(faults, kind, ids) && ids != []
    ensures NoneUnlinkedThenLost(faults, kind, ids[..|ids| - 1])
    ensures FaultOf(faults, kind, ids[|ids| - 1]) != Some(Raises(true))
  {
  }

  lemma BytesStep(mid: Store, kind: nat, id: RunId, dryRun: bool, now: Time, fault: Option<Fault>, from: nat)
    requires kind < |mid.tables| && id in mid.tables[kind] && from <= |mid.events|
    requires fault != Some(Raises(true))
    ensures var out := ProcessOne(mid, kind, id, dryRun, now, fault);
            && mid.events <= out.events
            && TotalSize(mid.files) + TallyOf(mid.events[from..]).bytesReclaimed
               == TotalSize(out.files) + TallyOf(out.events[from..]).bytesReclaimed
  {
    hide TotalSize, TallyOf;
    var out := ProcessOne(mid, kind, id, dryRun, now, fault);
    var path := mid.tables[kind][id].path;
    if out.events != mid.events {
      var e := out.events[|mid.events|];
      assert out.events[from..] == mid.events[from..] + [e];
      TallySnoc(mid.events[from..], e);
    }
    if path in mid.files {
      TotalSizeRemove(mid.files, path);
    } else {
      assert mid.files - {path} == mid.files;
    }
  }
}

/** The purge pass in its imperative form: a loop per table, one shared budget. */
module RetentionWorker {
  import opened Wrappers
  import opened Batch
  import opened Retention
  import opened RetentionPass
  import opened RetentionCounts

  /** The runs a pass has set aside: attempted without being resolved. */
  ghost predicate SetAside(excluded: set<RunId>, attempted: seq<RunId>, faults: Faults, kind: nat, dryRun: bool) {
    forall id :: id in excluded <==> id in attempted && !Resolved(faults, kind, id, dryRun)
  }

  lemma PrefixInTable(st: Store, kind: nat, cutoff: Time, ids: seq<RunId>)
    requires kind < |st.tables| && Prefix(EligibleRuns(st.tables[kind], cutoff), ids)
    ensures InTable(st, kind, ids)
  {
  }

  /** What is still eligible and not set aside is what was eligible and is not attempted. */
  lemma Remaining(
      st: Store, kind: nat, cutoff: Time, attempted: seq<RunId>, dryRun: bool, now: Time, faults: Faults,
      excluded: set<RunId>, id: RunId)
    requires kind < |st.tables| && Prefix(EligibleRuns(st.tables[kind], cutoff), attempted)
    requires InTable(st, kind, attempted) && SetAside(excluded, attempted, faults, kind, dryRun)
    requires id in st.tables[kind]
    ensures var row := ProcessAll(st, kind, attempted, dryRun, now, faults).tables[kind][id];
            && ((Eligible(row, cutoff) && id !in excluded)
                <==> (id in EligibleRuns(st.tables[kind], cutoff) && id !in attempted))
            && (id !in attempted ==> row == st.tables[kind][id])
  {
    hide Prefix, ProcessAll;
    ProcessAllRows(st, kind, attempted, dryRun, now, faults, kind, id);
    if id in attempted {
      AttemptedEligible(st.tables[kind], cutoff, attempted, id);
    }
  }

  lemma AttemptedEligible(table: map<RunId, Run>, cutoff: Time, attempted: seq<RunId>, id: RunId)
    requires Prefix(EligibleRuns(table, cutoff), attempted) && id in attempted
    ensures id in EligibleRuns(table, cutoff)
  {
  }

  lemma SelectedIsEarliest(
      st: Store, kind: nat, cutoff: Time, attempted: seq<RunId>, dryRun: bool, now: Time, faults: Faults,
      excluded: set<RunId>, id: RunId)
    requires kind < |st.tables| && Prefix(EligibleRuns(st.tables[kind], cutoff), attempted)
    requires InTable(st, kind, attempted) && SetAside(excluded, attempted, faults, kind, dryRun)
    requires id in st.tables[kind]
    requires var table := ProcessAll(st, kind, attempted, dryRun, now, faults).tables[kind];
             Eligible(table[id], cutoff) && id !in excluded && FirstEligible(table, cutoff, excluded, id)
    ensures Earliest(EligibleRuns(st.tables[kind], cutoff), attempted, id) && id !in attempted
  {
    hide Prefix, ProcessAll, SetAside;
    var due := EligibleRuns(st.tables[kind], cutoff);
    var table := ProcessAll(st, kind, attempted, dryRun, now, faults).tables[kind];
    Remaining(st, kind, cutoff, attempted, dryRun, now, faults, excluded, id);
    forall x <- due | x !in attempted && x != id
      ensures Precedes(due[id], id, due[x], x)
    {
      Remaining(st, kind, cutoff, attempted, dryRun, now, faults, excluded, x);
      assert x in table;
    }
  }

  lemma NothingLeft(
      st: Store, kind: nat, cutoff: Time, attempted: seq<RunId>, dryRun: bool, now: Time, faults: Faults,
      excluded: set<RunId>)
    requires kind < |st.tables| && Prefix(EligibleRuns(st.tables[kind], cutoff), attempted)
    requires InTable(st, kind, attempted) && SetAside(excluded, attempted, faults, kind, dryRun)
    requires var table := ProcessAll(st, kind, attempted, dryRun, now, faults).tables[kind];
             forall x <- table :: Eligible(table[x], cutoff) ==> x in excluded
    ensures forall id <- EligibleRuns(st.tables[kind], cutoff) :: id in attempted
  {
    hide Prefix, ProcessAll, SetAside;
    forall id <- EligibleRuns(st.tables[kind], cutoff)
      ensures id in attempted
    {
      Remaining(st, kind, cutoff, attempted, dryRun, now, faults, excluded, id);
      assert id in ProcessAll(st, kind, attempted, dryRun, now, faults).tables[kind];
    }
  }

  /** `id` comes before every other eligible run of the table that is not excluded. */
  ghost predicate FirstEligible(table: map<RunId, Run>, cutoff: Time, excluded: set<RunId>, id: RunId) {
    && id in table && Eligible(table[id], cutoff)
    && forall x <- table :: Eligible(table[x], cutoff) && x !in excluded && x != id ==>
         Precedes(DecisionTimestamp(table[id]).value, id, DecisionTimestamp(table[x]).value, x)
  }

  /** What is left of the budget after the first `k` tables. */
  ghost function Left(batch: nat, attempted: seq<seq<RunId>>, k: nat): int
    requires k <= |attempted|
  {
    if k == 0 then batch else Left(batch, attempted, k - 1) - |attempted[k - 1]|
  }

  /** Table by table, the first runs in order that the budget still allows. */
  ghost predicate WithinBudget(tables: seq<map<RunId, Run>>, cutoff: Time, batch: nat, attempted: seq<seq<RunId>>) {
    && |attempted| <= |tables|
    && forall k :: 0 <= k < |attempted| ==>
         Left(batch, attempted, k) >= 0
         && FirstOf(EligibleRuns(tables[k], cutoff), Left(batch, attempted, k), attempted[k])
  }

  class ArtifactStore {
    var tables: seq<map<RunId, Run>>
    var files: map<Path, nat>
    var events: seq<AuditEvent>

    ghost function State(): Store
      reads this
    {
      Store(tables, files, events)
    }

    constructor (tables: seq<map<RunId, Run>>, files: map<Path, nat>)
      ensures State() == Store(tables, files, [])
    {
      this.tables, this.files, events := tables, files, [];
    }

    /** The selection query: eligible, not excluded, oldest decision first. */
    method SelectEligible(kind: nat, cutoff: Time, excluded: set<RunId>) returns (next: Option<RunId>)
      requires kind < |tables|
      ensures next.Some? ==> next.value !in excluded && FirstEligible(tables[kind], cutoff, excluded, next.value)
      ensures next.None? ==> forall x <- tables[kind] :: Eligible(tables[kind][x], cutoff) ==> x in excluded
    {
      next := None;
      var table := tables[kind];
      var rest := table.Keys;
      while rest != {}
        invariant rest <= table.Keys
        invariant next.Some? ==> next.value in table && Eligible(table[next.value], cutoff) && next.value !in excluded
        invariant next.Some? ==> forall x <- table.Keys - rest ::
                    Eligible(table[x], cutoff) && x !in excluded && x != next.value ==>
                    Precedes(DecisionTimestamp(table[next.value]).value, next.value,
                             DecisionTimestamp(table[x]).value, x)
        invariant next.None? ==> forall x <- table.Keys - rest :: Eligible(table[x], cutoff) ==> x in excluded
      {
        var x :| x in rest;
        rest := rest - {x};
        if Eligible(table[x], cutoff) && x !in excluded
           && (next.None? || Precedes(DecisionTimestamp(table[x]).value, x,
                                      DecisionTimestamp(table[next.value]).value, next.value)) {
          next := Some(x);
        }
      }
    }

    /** One artifact's transaction; `event` is what it committed, if it did. */
    method Act(kind: nat, id: RunId, dryRun: bool, now: Time, fault: Option<Fault>) returns (event: Option<AuditEvent>)
      requires kind < |tables| && id in tables[kind] && tables[kind][id].outputDeletedAt.None?
      modifies this
      ensures State() == ProcessOne(old(State()), kind, id, dryRun, now, fault)
      ensures event.None? ==> events == old(events) && fault.Some? && fault.value.Raises?
      ensures event.Some? ==> events == old(events) + [event.value] && event.value.dryRun == dryRun
      ensures event.Some? && !event.value.outcome.DeletionFailed? ==> fault.None?
      ensures event.Some? && event.value.outcome.DeletionFailed? ==> fault.Some?
      ensures event.Some? && fault.None? ==>
        && event.value.kind == kind && event.value.run == id && event.value.reason.None?
        && (event.value.outcome.Completed? <==> old(tables)[kind][id].path in old(files))
        && (event.value.outcome.AlreadyMissing? <==> old(tables)[kind][id].path !in old(files))
        && (event.value.outcome.Completed? ==> event.value.size == Some(old(files)[old(tables)[kind][id].path]))
        && (event.value.outcome.AlreadyMissing? ==> event.value.size.None?)
      ensures event.Some? && fault.Some? ==>
        && event.value.kind == kind && event.value.run == id && event.value.size.None?
        && (event.value.reason == Some(UnsafePathReason) <==> fault == Some(UnsafePath))
        && (event.value.reason == Some(PermissionDenied) <==> fault == Some(OsFailure(true)))
        && (event.value.reason == Some(FilesystemError) <==> fault == Some(OsFailure(false)))
    {
      var r := tables[kind][id];
      if fault == Some(UnsafePath) {
        event := Some(AuditEvent(kind, id, DeletionFailed, Some(UnsafePathReason), dryRun, None));
        events := events + [event.value];
        return;
      }
      var size := if r.path in files then Some(files[r.path]) else None;
      if fault.Some? && fault.value.OsFailure? {
        var reason := ClassifyOsError(fault.value.permission);
        event := Some(AuditEvent(kind, id, DeletionFailed, Some(reason), dryRun, None));
        events := events + [event.value];
        return;
      }
      if fault.Some? && !fault.value.afterUnlink {
        return None;
      }
      var existed := r.path in files;
      if !dryRun {
        files := files - {r.path};
      }
      if fault.Some? {
        return None;
      }
      if !dryRun && tables[kind][id].outputDeletedAt.None? {
        var table: map<RunId, Run> := tables[kind][id := r.(outputDeletedAt := Some(now))];
        tables := tables[kind := table];
      }
      event := Some(AuditEvent(kind, id, if existed then Completed else AlreadyMissing, None, dryRun, size));
      events := events + [event.value];
    }

    /** One table: exactly the first `budget` eligible runs, each once. */
    method ProcessOneRunType(kind: nat, budget: nat, dryRun: bool, cutoff: Time, now: Time, faults: Faults)
      returns (tally: Tally, attempted: seq<RunId>)
      requires kind < |tables|
      modifies this
      ensures FirstOf(EligibleRuns(old(tables)[kind], cutoff), budget, attempted)
      ensures InTable(old(State()), kind, attempted)
      ensures State() == ProcessAll(old(State()), kind, attempted, dryRun, now, faults)
      ensures old(events) <= events && tally == TallyOf(events[|old(events)|..])
      ensures CountsOf(tally, old(State()), kind, attempted, dryRun, faults)
    {
      hide CountsOf;
      hide Prefix, Earliest, SetAside, ProcessAll, EligibleRuns, FirstEligible, ProcessOne, InTable, TallyOf, Counted;
      ghost var st := State();
      ghost var due := EligibleRuns(tables[kind], cutoff);
      tally, attempted := NOTHING, [];
      var excluded: set<RunId> := {};
      TypeStart(st, kind, cutoff, dryRun, now, faults);
      assert events[|old(events)|..] == [];
      while |attempted| < budget
        invariant |attempted| <= budget && Prefix(due, attempted) && InTable(st, kind, attempted)
        invariant State() == ProcessAll(st, kind, attempted, dryRun, now, faults)
        invariant SetAside(excluded, attempted, faults, kind, dryRun)
        invariant old(events) <= events && tally == TallyOf(events[|old(events)|..])
      {
        var next := SelectEligible(kind, cutoff, excluded);
        if next.None? {
          NothingLeft(st, kind, cutoff, attempted, dryRun, now, faults, excluded);
          break;
        }
        var id := next.value;
        SelectionFacts(tables[kind], cutoff, excluded, id);
        SelectedIsEarliest(st, kind, cutoff, attempted, dryRun, now, faults, excluded, id);
        PrefixNext(due, attempted, id);
        ProcessAllSnoc(st, kind, attempted, id, dryRun, now, faults);
        SetAsideNext(excluded, attempted, faults, kind, dryRun, id);
        ghost var logged := events[|old(events)|..];
        attempted := attempted + [id];
        PrefixInTable(st, kind, cutoff, attempted);
        var fault := if (kind, id) in faults then Some(faults[(kind, id)]) else None;
        var event := Act(kind, id, dryRun, now, fault);
        if event.None? {
          excluded := excluded + {id};
          continue;
        }
        var e := event.value;
        assert events[|old(events)|..] == logged + [e];
        TallySnoc(logged, e);
        if dryRun || e.outcome.DeletionFailed? {
          excluded := excluded + {id};
        }
        tally := Counted(tally, e);
      }
      TableCounts(st, kind, attempted, dryRun, now, faults);
    }

    /** The whole pass.  Every table gets what the earlier ones left of the budget. */
    method PurgeExpiredArtifacts(
        enabled: bool, batch: nat, dryRun: bool, window: nat, now: Time, faults: Faults)
      returns (result: Tally, ghost attempted: seq<seq<RunId>>, ghost stages: seq<Store>)
      modifies this
      ensures !enabled ==> State() == old(State()) && result == NOTHING
      ensures enabled ==> |attempted| == |old(tables)|
      ensures WithinBudget(old(tables), now - window, batch, attempted)
      ensures Stages(stages, attempted, dryRun, now, faults)
      ensures stages[0] == old(State()) && stages[|stages| - 1] == State()
      ensures old(events) <= events && result == TallyOf(events[|old(events)|..])
      ensures Considered(result) == |events| - |old(events)|
      ensures Visits(stages, attempted) && PassCounts(result, stages, attempted, dryRun, faults)
    {
      hide PassCounts, Visits, CountsOf;
      hide Prefix, ProcessAll, EligibleRuns, TallyOf, FirstOf, Left, WithinBudget, InTable, Added, Considered, Stages;
      attempted, stages := [], [State()];
      result := NOTHING;
      NothingTallied();
      assert events[|old(events)|..] == [];
      StartWithinBudget(tables, now - window, batch);
      StartStages(State(), dryRun, now, faults);
      NoVisits(State(), dryRun, faults);
      ConsideredIsEvents([]);
      if !enabled {
        return;
      }
      var cutoff := now - window;
      ghost var st := State();
      var remaining := batch;
      for k := 0 to |tables|
        invariant |st.tables| == |tables| && |attempted| == k
        invariant remaining == Left(batch, attempted, k) && remaining >= 0
        invariant forall j :: k <= j < |tables| ==> tables[j] == st.tables[j]
        invariant WithinBudget(st.tables, cutoff, batch, attempted)
        invariant Stages(stages, attempted, dryRun, now, faults) && |stages| == k + 1
        invariant stages[0] == st && stages[k] == State()
        invariant Visits(stages, attempted) && PassCounts(result, stages, attempted, dryRun, faults)
        invariant old(events) <= events && result == TallyOf(events[|old(events)|..])
      {
        ghost var logged, before := events[|old(events)|..], State();
        var tally, ids := NOTHING, [];
        if remaining > 0 {
          tally, ids := ProcessOneRunType(k, remaining, dryRun, cutoff, now, faults);
          AtMost(EligibleRuns(st.tables[k], cutoff), remaining, ids);
        } else {
          NoBudget(before, k, cutoff, dryRun, now, faults);
        }
        assert events[|old(events)|..] == logged + events[|before.events|..];
        TablesAfter(before, k, ids, dryRun, now, faults);
        TallyConcat(logged, events[|before.events|..]);
        BudgetNext(st.tables, cutoff, batch, attempted, ids);
        StagesNext(stages, attempted, ids, dryRun, now, faults, State());
        PassCountsMore(result, stages, attempted, tally, State(), ids, dryRun, faults);
        attempted, stages := attempted + [ids], stages + [State()];
        result := Added(result, tally);
        remaining := remaining - |ids|;
      }
      ConsideredIsEvents(events[|old(events)|..]);
    }
  }

  lemma NothingTallied()
    ensures TallyOf([]) == NOTHING
  {
  }

  lemma StartWithinBudget(tables: seq<map<RunId, Run>>, cutoff: Time, batch: nat)
    ensures WithinBudget(tables, cutoff, batch, []) && Left(batch, [], 0) == batch
  {
  }

  lemma AtMost(due: map<RunId, Time>, k: nat, chosen: seq<RunId>)
    requires FirstOf(due, k, chosen)
    ensures |chosen| <= k
  {
  }

  lemma CountedAdded(t: Tally, u: Tally, e: AuditEvent)
    ensures Added(t, Counted(u, e)) == Counted(Added(t, u), e)
  {
  }

  lemma {:induction false} TallyConcat(a: seq<AuditEvent>, b: seq<AuditEvent>)
    ensures TallyOf(a + b) == Added(TallyOf(a), TallyOf(b))
  {
    hide Counted;
    if b == [] {
      assert a + b == a;
    } else {
      var front, e := b[..|b| - 1], b[|b| - 1];
      assert a + b == (a + front) + [e];
      TallyConcat(a, front);
      TallySnoc(a + front, e);
      CountedAdded(TallyOf(a), TallyOf(front), e);
    }
  }

  lemma TypeStart(st: Store, kind: nat, cutoff: Time, dryRun: bool, now: Time, faults: Faults)
    requires kind < |st.tables|
    ensures Prefix(EligibleRuns(st.tables[kind], cutoff), []) && InTable(st, kind, [])
    ensures ProcessAll(st, kind, [], dryRun, now, faults) == st
    ensures SetAside({}, [], faults, kind, dryRun)
    ensures TallyOf([]) == NOTHING
  {
  }

  lemma SelectionFacts(table: map<RunId, Run>, cutoff: Time, excluded: set<RunId>, id: RunId)
    requires FirstEligible(table, cutoff, excluded, id)
    ensures id in table && Eligible(table[id], cutoff)
  {
  }

  lemma SetAsideNext(
      excluded: set<RunId>, attempted: seq<RunId>, faults: Faults, kind: nat, dryRun: bool, id: RunId)
    requires SetAside(excluded, attempted, faults, kind, dryRun) && id !in attempted
    ensures SetAside(if Resolved(faults, kind, id, dryRun) then excluded else excluded + {id},
                     attempted + [id], faults, kind, dryRun)
  {
  }

  lemma NoBudget(st: Store, kind: nat, cutoff: Time, dryRun: bool, now: Time, faults: Faults)
    requires kind < |st.tables|
    ensures FirstOf(EligibleRuns(st.tables[kind], cutoff), 0, []) && InTable(st, kind, [])
    ensures ProcessAll(st, kind, [], dryRun, now, faults) == st
    ensures TallyOf(st.events[|st.events|..]) == NOTHING
    ensures CountsOf(NOTHING, st, kind, [], dryRun, faults)
  {
    NothingFated(st, kind, dryRun, faults);
    assert st.events[|st.events|..] == [];
  }

  lemma TablesAfter(st: Store, kind: nat, ids: seq<RunId>, dryRun: bool, now: Time, faults: Faults)
    requires InTable(st, kind, ids)
    ensures var out := ProcessAll(st, kind, ids, dryRun, now, faults);
            && |out.tables| == |st.tables|
            && forall j :: 0 <= j < |st.tables| && j != kind ==> out.tables[j] == st.tables[j]
  {
    hide ProcessAll;
    var out := ProcessAll(st, kind, ids, dryRun, now, faults);
    forall j | 0 <= j < |st.tables| && j != kind
      ensures out.tables[j] == st.tables[j]
    {
      forall id <- st.tables[j]
        ensures out.tables[j][id] == st.tables[j][id]
      {
        ProcessAllRows(st, kind, ids, dryRun, now, faults, j, id);
      }
      assert out.tables[j].Keys == st.tables[j].Keys;
    }
  }

  lemma {:induction false} LeftKept(batch: nat, attempted: seq<seq<RunId>>, ids: seq<RunId>, k: nat)
    requires k <= |attempted|
    ensures Left(batch, attempted + [ids], k) == Left(batch, attempted, k)
  {
    if k > 0 {
      LeftKept(batch, attempted, ids, k - 1);
    }
  }

  lemma BudgetNext(tables: seq<map<RunId, Run>>, cutoff: Time, batch: nat, attempted: seq<seq<RunId>>, ids: seq<RunId>)
    requires WithinBudget(tables, cutoff, batch, attempted) && |attempted| < |tables|
    requires Left(batch, attempted, |attempted|) >= 0
    requires FirstOf(EligibleRuns(tables[|attempted|], cutoff), Left(batch, attempted, |attempted|), ids)
    ensures WithinBudget(tables, cutoff, batch, attempted + [ids])
    ensures Left(batch, attempted + [ids], |attempted| + 1) == Left(batch, attempted, |attempted|) - |ids|
  {
    hide FirstOf, EligibleRuns, Left;
    var more := attempted + [ids];
    forall k | 0 <= k < |more|
      ensures Left(batch, more, k) == Left(batch, attempted, k)
      ensures more[k] == if k < |attempted| then attempted[k] else ids
    {
      LeftKept(batch, attempted, ids, k);
    }
    LeftNext(batch, attempted, ids);
  }

  lemma LeftNext(batch: nat, attempted: seq<seq<RunId>>, ids: seq<RunId>)
    ensures Left(batch, attempted + [ids], |attempted| + 1) == Left(batch, attempted, |attempted|) - |ids|
  {
    LeftKept(batch, attempted, ids, |attempted|);
  }

  lemma StagesNext(
      stages: seq<Store>, attempted: seq<seq<RunId>>, ids: seq<RunId>, dryRun: bool, now: Time, faults: Faults,
      out: Store)
    requires Stages(stages, attempted, dryRun, now, faults)
    requires InTable(stages[|attempted|], |attempted|, ids)
    requires out == ProcessAll(stages[|attempted|], |attempted|, ids, dryRun, now, faults)
    ensures Stages(stages + [out], attempted + [ids], dryRun, now, faults)
  {
    hide ProcessAll, InTable;
    var ss, aa := stages + [out], attempted + [ids];
    assert forall k :: 0 <= k < |stages| ==> ss[k] == stages[k];
    assert forall k :: 0 <= k < |attempted| ==> aa[k] == attempted[k];
  }

  lemma StartStages(st: Store, dryRun: bool, now: Time, faults: Faults)
    ensures Stages([st], [], dryRun, now, faults)
  {
  }

  // ----- the pass as a whole

  /** A dry pass leaves every run and every file as it found them. */
  lemma {:induction false} DryPassChangesNothing(
      stages: seq<Store>, attempted: seq<seq<RunId>>, now: Time, faults: Faults, k: nat)
    requires Stages(stages, attempted, true, now, faults) && k < |stages|
    ensures stages[k].tables == stages[0].tables && stages[k].files == stages[0].files
  {
    if k > 0 {
      DryPassChangesNothing(stages, attempted, now, faults, k - 1);
      assert stages[k - 1 + 1] == ProcessAll(stages[k - 1], k - 1, attempted[k - 1], true, now, faults);
      DryPassIsReadOnly(stages[k - 1], k - 1, attempted[k - 1], now, faults);
    }
  }

  /** The bytes the pass reports reclaimed are the bytes the disk lost to it. */
  lemma {:induction false} PassConservesBytes(
      stages: seq<Store>, attempted: seq<seq<RunId>>, dryRun: bool, now: Time, faults: Faults, k: nat)
    requires Stages(stages, attempted, dryRun, now, faults) && k < |stages|
    requires forall j :: 0 <= j < |attempted| ==> NoneUnlinkedThenLost(faults, j, attempted[j])
    ensures stages[0].events <= stages[k].events
    ensures TotalSize(stages[0].files)
         == TotalSize(stages[k].files) + TallyOf(stages[k].events[|stages[0].events|..]).bytesReclaimed
  {
    hide ProcessAll, TallyOf, TotalSize, InTable;
    var from := |stages[0].events|;
    if k == 0 {
      NothingTallied();
      assert stages[0].events[from..] == [];
    } else {
      var before, after := stages[k - 1], stages[k - 1 + 1];
      PassConservesBytes(stages, attempted, dryRun, now, faults, k - 1);
      assert NoneUnlinkedThenLost(faults, k - 1, attempted[k - 1]);
      BytesConserved(before, k - 1, attempted[k - 1], dryRun, now, faults);
      assert after.events[from..] == before.events[from..] + after.events[|before.events|..];
      TallyConcat(before.events[from..], after.events[|before.events|..]);
    }
  }

  ghost function Attempts(attempted: seq<seq<RunId>>, k: nat): nat
    requires k <= |attempted|
  {
    if k == 0 then 0 else Attempts(attempted, k - 1) + |attempted[k - 1]|
  }

  /** All three tables together never see more than `batch` attempts. */
  lemma {:induction false} AttemptsWithinBatch(
      tables: seq<map<RunId, Run>>, cutoff: Time, batch: nat, attempted: seq<seq<RunId>>, k: nat)
    requires WithinBudget(tables, cutoff, batch, attempted) && k <= |attempted|
    ensures Left(batch, attempted, k) == batch - Attempts(attempted, k)
    ensures Attempts(attempted, k) <= batch
  {
    hide FirstOf, EligibleRuns;
    if k > 0 {
      AttemptsWithinBatch(tables, cutoff, batch, attempted, k - 1);
      AtMost(EligibleRuns(tables[k - 1], cutoff), Left(batch, attempted, k - 1), attempted[k - 1]);
    }
  }
}
